/** Comparison in runtime/softfloat.c, and its agreement with addition. */
module FloatOrder {
  import opened Powers
  import opened Rounding
  import opened FloatWord
  import opened SoftFloat

  datatype Extended = NegInf | Fin(x: real) | PosInf

  ghost predicate Less(v: Extended, w: Extended) {
    match (v, w)
    case (Fin(x), Fin(y)) => x < y
    case (NegInf, _) => w != NegInf
    case (_, PosInf) => v != PosInf
    case _ => false
  }

  ghost predicate AtMost(v: Extended, w: Extended) { v == w || Less(v, w) }

  /** The magnitude IEEE 754 gives a finite word; comparison, unlike arithmetic,
      keeps subnormals apart. */
  ghost function FullMagnitude(f: Format, w: nat): real {
    FieldMagnitude(f, Exp(f, w), Frac(f, w))
  }

  ghost function FieldMagnitude(f: Format, e: nat, frac: nat): real {
    if e == 0 then Grid(frac, 1 - f.Shift()) else Grid(f.Hidden() + frac, e - f.Shift())
  }

  ghost function ExtValue(f: Format, w: nat): Extended {
    if Exp(f, w) == f.ExpMax() then
      if Sign(f, w) == 1 then NegInf else PosInf
    else
      Fin(Signed(Sign(f, w), FullMagnitude(f, w)))
  }

  /** sf_cmp and df_cmp: 0 equal, 1 greater, 2 less, 3 unordered. */
  function Cmp(f: Format, a: nat, b: nat): int {
    if IsNaN(f, a) || IsNaN(f, b) then 3
    else if a % f.SignBit() == 0 && b % f.SignBit() == 0 then 0
    else
      var sa, sb := Sign(f, a), Sign(f, b);
      if sa != sb then (if sa != 0 then 2 else 1)
      else if a == b then 0
      else if sa == 0 then (if a < b then 2 else 1)
      else (if a < b then 1 else 2)
  }

  function Eq(f: Format, a: nat, b: nat): int { if Cmp(f, a, b) == 0 then 0 else 1 }
  function Unord(f: Format, a: nat, b: nat): int { if Cmp(f, a, b) == 3 then 1 else 0 }
  /** __ltsf2, __lesf2 and their double versions */
  function LtLe(f: Format, a: nat, b: nat): int {
    var c := Cmp(f, a, b);
    if c == 2 then -1 else if c == 0 then 0 else 1
  }
  /** __gtsf2, __gesf2 and their double versions */
  function GtGe(f: Format, a: nat, b: nat): int {
    var c := Cmp(f, a, b);
    if c == 1 then 1 else if c == 0 then 0 else -1
  }

  /** The magnitude bits of a word are ordered as the magnitudes are. */
  lemma FieldOrder(f: Format, e: nat, frac: nat, e': nat, frac': nat)
    requires e < f.ExpMax() && e' < f.ExpMax() && frac < f.Hidden() && frac' < f.Hidden()
    requires e < e' || (e == e' && frac < frac')
    ensures FieldMagnitude(f, e, frac) < FieldMagnitude(f, e', frac')
  {
    var h := f.Hidden();
    if e == 0 {
      if e' == 0 {
        Stretch(frac, frac', 1 - f.Shift());
      } else {
        Stretch(frac, h, 1 - f.Shift());
        GridOrder(f, h, 1 - f.Shift(), h + frac', e' - f.Shift());
      }
    } else {
      GridOrder(f, h + frac, e - f.Shift(), h + frac', e' - f.Shift());
    }
  }

  /** A word without its sign is its exponent and fraction in dictionary order. */
  lemma WordOrder(f: Format, a: nat, b: nat)
    requires Word(f, a) && Word(f, b) && Sign(f, a) == Sign(f, b)
    ensures a < b <==> Exp(f, a) < Exp(f, b) || (Exp(f, a) == Exp(f, b) && Frac(f, a) < Frac(f, b))
    ensures a == b <==> Exp(f, a) == Exp(f, b) && Frac(f, a) == Frac(f, b)
  {
    Repack(f, a);
    Repack(f, b);
  }

  lemma MagnitudeSign(f: Format, a: nat)
    requires Word(f, a) && IsFinite(f, a)
    ensures FullMagnitude(f, a) >= 0.0
    ensures FullMagnitude(f, a) == 0.0 <==> a % f.SignBit() == 0
  {
    Repack(f, a);
    var e, frac := Exp(f, a), Frac(f, a);
    ScaledSum(0.0, 0.0, 1 - f.Shift());
    if e == 0 {
      Stretch(0, frac, 1 - f.Shift());
    } else {
      FieldOrder(f, 0, 0, e, frac);
    }
    SignFree(f, Sign(f, a), e, frac);
  }

  lemma SignFree(f: Format, s: nat, e: nat, frac: nat)
    requires s <= 1 && e <= f.ExpMax() && frac < f.Hidden()
    ensures Pack(f, s, e, frac) % f.SignBit() == 0 <==> e == 0 && frac == 0
  {
    DivMod(s, Pack(f, 0, e, frac), f.SignBit());
  }

  /** On all words that are not NaNs, sf_cmp decides the order of the represented numbers,
      with the two zeros equal; NaNs are unordered. */
  lemma CmpDecides(f: Format, a: nat, b: nat)
    requires Word(f, a) && Word(f, b)
    ensures Cmp(f, a, b) == 3 <==> IsNaN(f, a) || IsNaN(f, b)
    ensures !IsNaN(f, a) && !IsNaN(f, b) ==>
              && (Cmp(f, a, b) == 0 <==> ExtValue(f, a) == ExtValue(f, b))
              && (Cmp(f, a, b) == 2 <==> Less(ExtValue(f, a), ExtValue(f, b)))
              && (Cmp(f, a, b) == 1 <==> Less(ExtValue(f, b), ExtValue(f, a)))
  {
    FieldBounds(f, a);
    FieldBounds(f, b);
    if !IsNaN(f, a) && !IsNaN(f, b) {
      InfiniteNotZero(f, a);
      InfiniteNotZero(f, b);
      if IsFinite(f, a) && IsFinite(f, b) {
        CmpFinite(f, a, b);
      } else if Sign(f, a) == Sign(f, b) {
        WordOrder(f, a, b);
      }
    }
  }

  lemma InfiniteNotZero(f: Format, a: nat)
    requires Word(f, a)
    ensures !IsFinite(f, a) ==> a % f.SignBit() != 0
  {
    Repack(f, a);
    SignFree(f, Sign(f, a), Exp(f, a), Frac(f, a));
  }

  lemma CmpFinite(f: Format, a: nat, b: nat)
    requires Word(f, a) && Word(f, b) && IsFinite(f, a) && IsFinite(f, b)
    ensures Cmp(f, a, b) == 0 <==> ExtValue(f, a) == ExtValue(f, b)
    ensures Cmp(f, a, b) == 2 <==> Less(ExtValue(f, a), ExtValue(f, b))
    ensures Cmp(f, a, b) == 1 <==> Less(ExtValue(f, b), ExtValue(f, a))
  {
    hide Grid, Exp, Frac;
    FieldBounds(f, a);
    FieldBounds(f, b);
    MagnitudeSign(f, a);
    MagnitudeSign(f, b);
    if Sign(f, a) == Sign(f, b) {
      MagnitudeOrder(f, a, b);
    }
  }

  lemma MagnitudeOrder(f: Format, a: nat, b: nat)
    requires Word(f, a) && Word(f, b) && IsFinite(f, a) && IsFinite(f, b)
    requires Sign(f, a) == Sign(f, b)
    ensures a < b <==> FullMagnitude(f, a) < FullMagnitude(f, b)
    ensures a == b <==> FullMagnitude(f, a) == FullMagnitude(f, b)
  {
    hide Grid;
    FieldBounds(f, a);
    FieldBounds(f, b);
    WordOrder(f, a, b);
    if a < b {
      FieldOrder(f, Exp(f, a), Frac(f, a), Exp(f, b), Frac(f, b));
    } else if b < a {
      FieldOrder(f, Exp(f, b), Frac(f, b), Exp(f, a), Frac(f, a));
    }
  }

  /** Each comparison a compiler emits tests one of the wrappers against zero. */
  lemma WrappersDecide(f: Format, a: nat, b: nat)
    requires Word(f, a) && Word(f, b)
    ensures var ordered := !IsNaN(f, a) && !IsNaN(f, b);
            var v, w := ExtValue(f, a), ExtValue(f, b);
            && (LtLe(f, a, b) < 0 <==> ordered && Less(v, w))
            && (LtLe(f, a, b) <= 0 <==> ordered && AtMost(v, w))
            && (GtGe(f, a, b) > 0 <==> ordered && Less(w, v))
            && (GtGe(f, a, b) >= 0 <==> ordered && AtMost(w, v))
            && (Eq(f, a, b) == 0 <==> ordered && v == w)
            && (Unord(f, a, b) != 0 <==> !ordered)
  {
    hide Cmp, ExtValue, IsNaN;
    CmpDecides(f, a, b);
    CmpRange(f, a, b);
  }

  lemma CmpRange(f: Format, a: nat, b: nat)
    ensures 0 <= Cmp(f, a, b) <= 3
  {
  }

  /** Encoding keeps the order of the grid, through overflow and flushing. */
  lemma EncodeMonotone(f: Format, s: nat, m: nat, k: int, m': nat, k': int)
    requires s <= 1 && Normal(f, m) && Normal(f, m') && Grid(m, k) <= Grid(m', k')
    ensures var v, w := ExtValue(f, Encode(f, s, m, k)), ExtValue(f, Encode(f, s, m', k'));
            if s == 0 then AtMost(Fin(0.0), v) && AtMost(v, w) else AtMost(v, Fin(0.0)) && AtMost(w, v)
  {
    hide Grid;
    EncodedExtValue(f, s, m, k);
    EncodedExtValue(f, s, m', k');
    GridOrder(f, m', k', m, k);
    GridPositive(f, m, k);
    GridPositive(f, m', k');
  }

  lemma EncodedExtValue(f: Format, s: nat, m: nat, k: int)
    requires s <= 1 && Normal(f, m)
    ensures ExtValue(f, Encode(f, s, m, k)) ==
            var e := k + f.Shift();
            if e >= f.ExpMax() then (if s == 1 then NegInf else PosInf)
            else if e <= 0 then Fin(0.0)
            else Fin(Signed(s, Grid(m, k)))
  {
    hide Pack, Sign, Exp, Frac, Grid;
    ZeroValue(f, s);
    Unpack(f, s, f.ExpMax(), 0);
    if 0 < k + f.Shift() < f.ExpMax() {
      Unpack(f, s, k + f.Shift(), m - f.Hidden());
    }
  }

  lemma ZeroValue(f: Format, s: nat)
    requires s <= 1
    ensures ExtValue(f, Zero(f, s)) == Fin(0.0)
  {
    Unpack(f, s, 0, 0);
    ScaledSum(0.0, 0.0, 1 - f.Shift());
  }

  /** Rounding, with overflow and flushing, is monotone on all reals. */
  lemma RoundsToMonotone(f: Format, x: real, y: real, z: nat, z': nat, r: nat, r': nat)
    requires x <= y && z <= 1 && z' <= 1
    requires RoundsTo(f, x, z, r) && RoundsTo(f, y, z', r')
    ensures AtMost(ExtValue(f, r), ExtValue(f, r'))
  {
    hide ExtValue, Encode;
    ZeroValue(f, z);
    ZeroValue(f, z');
    if x != 0.0 {
      var m, k := Delivered(f, SignOf(x), Abs(x), r);
      EncodeMonotone(f, SignOf(x), m, k, m, k);
      if y != 0.0 && SignOf(x) == SignOf(y) {
        var m', k' := Delivered(f, SignOf(y), Abs(y), r');
        if x > 0.0 {
          RoundingIsMonotone(f, x, m, k, y, m', k');
          EncodeMonotone(f, 0, m, k, m', k');
        } else {
          RoundingIsMonotone(f, -y, m', k', -x, m, k);
          EncodeMonotone(f, 1, m', k', m, k);
        }
      }
    }
    if y != 0.0 {
      var m', k' := Delivered(f, SignOf(y), Abs(y), r');
      EncodeMonotone(f, SignOf(y), m', k', m', k');
    }
  }

  lemma Delivered(f: Format, s: nat, x: real, r: nat) returns (m: nat, k: int)
    requires Delivers(f, s, x, r)
    ensures NearestEven(f, x, m, k) && r == Encode(f, s, m, k)
  {
    m, k :| NearestEven(f, x, m, k) && r == Encode(f, s, m, k);
  }

  /** Reading subnormals as zero keeps the order of the words. */
  lemma FlushMonotone(f: Format, a: nat, a': nat)
    requires Word(f, a) && Word(f, a') && IsFinite(f, a) && IsFinite(f, a')
    requires AtMost(ExtValue(f, a), ExtValue(f, a'))
    ensures Value(f, a) <= Value(f, a')
  {
    FieldBounds(f, a);
    FieldBounds(f, a');
    if FullMagnitude(f, a) <= FullMagnitude(f, a') {
      FlushBelow(f, a, a');
    }
    if FullMagnitude(f, a') <= FullMagnitude(f, a) {
      FlushBelow(f, a', a);
    }
    MagnitudeSign(f, a);
    MagnitudeSign(f, a');
  }

  lemma FlushBelow(f: Format, a: nat, b: nat)
    requires Word(f, a) && Word(f, b) && IsFinite(f, a) && IsFinite(f, b)
    requires FullMagnitude(f, a) <= FullMagnitude(f, b)
    ensures Magnitude(f, a) <= Magnitude(f, b)
  {
    FieldBounds(f, a);
    FieldBounds(f, b);
    if Exp(f, a) != 0 && Exp(f, b) == 0 {
      FieldOrder(f, Exp(f, b), Frac(f, b), Exp(f, a), Frac(f, a));
    }
  }

  /** Addition is weakly monotone in its first argument, in the order sf_cmp decides. */
  lemma AdditionIsMonotone(f: Format, a: nat, a': nat, b: nat, r: nat, r': nat)
    requires Word(f, a) && Word(f, a') && Word(f, b)
    requires !IsNaN(f, a) && !IsNaN(f, a') && !IsNaN(f, b)
    requires IsSum(f, a, b, r) && IsSum(f, a', b, r') && !IsNaN(f, r) && !IsNaN(f, r')
    requires AtMost(ExtValue(f, a), ExtValue(f, a'))
    ensures AtMost(ExtValue(f, r), ExtValue(f, r'))
  {
    FieldBounds(f, a);
    FieldBounds(f, a');
    FieldBounds(f, b);
    if IsFinite(f, a) && IsFinite(f, a') && IsFinite(f, b) {
      FiniteSumMonotone(f, a, a', b, r, r');
    }
  }

  lemma FiniteSumMonotone(f: Format, a: nat, a': nat, b: nat, r: nat, r': nat)
    requires Word(f, a) && Word(f, a') && Word(f, b)
    requires IsFinite(f, a) && IsFinite(f, a') && IsFinite(f, b)
    requires IsSum(f, a, b, r) && IsSum(f, a', b, r')
    requires AtMost(ExtValue(f, a), ExtValue(f, a'))
    ensures AtMost(ExtValue(f, r), ExtValue(f, r'))
  {
    hide RoundsTo, ExtValue, Value, Exp, Sign;
    FlushMonotone(f, a, a');
    RoundsToMonotone(f, Value(f, a) + Value(f, b), Value(f, a') + Value(f, b),
      if Exp(f, a) == 0 && Exp(f, b) == 0 && Sign(f, a) == 1 && Sign(f, b) == 1 then 1 else 0,
      if Exp(f, a') == 0 && Exp(f, b) == 0 && Sign(f, a') == 1 && Sign(f, b) == 1 then 1 else 0, r, r');
  }

  /** Addition commutes on numbers, so it is monotone in its second argument too. */
  lemma AdditionCommutes(f: Format, a: nat, b: nat, r: nat)
    requires !IsNaN(f, a) && !IsNaN(f, b)
    requires Word(f, a) && Word(f, b) && IsSum(f, a, b, r)
    ensures IsSum(f, b, a, r)
  {
    Repack(f, a);
    Repack(f, b);
  }
}
