/** Round to nearest, ties to even, over exact reals.
    Section 4.3.1 of IEEE 754-2019, stated without reference to any algorithm. */
module Rounding {
  import opened Powers

  /** A binary format, given by its two parameters; the runtime has these two. */
  datatype Format = Single | Double {
    /** The hidden bit: 2 to the number of stored fraction bits. */
    function Hidden(): nat { if Single? then 0x80_0000 else 0x10_0000_0000_0000 }
    function FracBits(): nat { if Single? then 23 else 52 }
    function ExpBits(): nat { if Single? then 8 else 11 }
    function ExpMax(): nat { if Single? then 0xff else 0x7ff }
    function Bias(): nat { if Single? then 127 else 1023 }
    function SignBit(): nat { if Single? then 0x8000_0000 else 0x8000_0000_0000_0000 }
    /** A word with exponent field e and significand m stands for m * 2^(e - Shift()). */
    function Shift(): nat { Bias() + FracBits() }
  }

  ghost predicate Normal(f: Format, m: int) {
    f.Hidden() <= m < 2 * f.Hidden()
  }

  /** The grid of values with a full significand and an unbounded exponent. */
  ghost function Grid(m: int, k: int): real {
    Scaled(m as real, k)
  }

  ghost function Dist(x: real, y: real): (d: real) {
    if x <= y then y - x else x - y
  }

  /** m * 2^k is nearest to x; on a tie between two grid points the even one is chosen. */
  ghost predicate NearestEven(f: Format, x: real, m: int, k: int) {
    && Normal(f, m)
    && forall m', k' :: Normal(f, m') ==>
         && Dist(x, Grid(m, k)) <= Dist(x, Grid(m', k'))
         && (Dist(x, Grid(m, k)) == Dist(x, Grid(m', k')) && (m', k') != (m, k) ==> m % 2 == 0)
  }

  lemma Stretch(a: int, b: int, k: int)
    ensures a < b <==> Grid(a, k) < Grid(b, k)
    ensures a == b <==> Grid(a, k) == Grid(b, k)
  {
    ScaledOrder(a as real, b as real, k);
  }

  lemma GridLift(m: int, k: int)
    ensures Grid(m, k + 1) == Grid(2 * m, k)
  {
    ScaledStep(m as real, k);
    ScaledSum(m as real, m as real, k);
    assert (2 * m) as real == m as real + m as real;
  }

  /** A grid point with a smaller exponent is smaller. */
  lemma LowerBinade(f: Format, m: int, k: int, m': int, k': int)
    requires Normal(f, m) && Normal(f, m') && k < k'
    ensures Grid(m, k) < Grid(m', k')
  {
    ScaledGrows(m' as real, k, k');
    GridLift(m', k);
    ScaledStep(m' as real, k);
    Stretch(m, 2 * m', k);
  }

  /** A grid point with a larger exponent is beyond s + 1, and meets it only at the carry. */
  lemma UpperBinade(f: Format, s: int, t: int, m: int, k: int)
    requires Normal(f, s) && Normal(f, m) && t < k
    ensures Grid(m, k) >= Grid(s + 1, t)
    ensures Grid(m, k) == Grid(s + 1, t) ==> s + 1 == 2 * f.Hidden() && m == f.Hidden() && k == t + 1
  {
    GridLift(m, t);
    Stretch(s + 1, 2 * m, t);
    if t + 1 < k {
      ScaledGrows(m as real, t + 1, k);
    }
  }

  /** No grid point lies strictly between neighbours s and s + 1, and each has one name. */
  lemma Gap(f: Format, s: int, t: int, m: int, k: int)
    requires Normal(f, s) && Normal(f, m)
    ensures Grid(m, k) <= Grid(s, t) || Grid(m, k) >= Grid(s + 1, t)
    ensures Grid(m, k) == Grid(s, t) ==> (m, k) == (s, t)
    ensures Grid(m, k) == Grid(s + 1, t) ==>
              (m, k) == if s + 1 == 2 * f.Hidden() then (f.Hidden(), t + 1) else (s + 1, t)
  {
    Stretch(s, s + 1, t);
    if k == t {
      Stretch(m, s, t);
      Stretch(s, m, t);
      Stretch(s + 1, m, t);
    } else if k > t {
      UpperBinade(f, s, t, m, k);
    } else {
      LowerBinade(f, m, k, s, t);
    }
  }

  /** The significand and exponent left when s is rounded down, or up with renormalisation. */
  function Rounded(f: Format, s: nat, t: int, up: bool): (nat, int) {
    if !up then (s, t) else if s + 1 == 2 * f.Hidden() then (f.Hidden(), t + 1) else (s + 1, t)
  }

  /** The decision every operation of the runtime makes: x lies in [s, s + 1) at exponent t,
      and `up` compares the discarded part with one half, breaking a tie by the low bit. */
  ghost predicate Decides(x: real, s: nat, t: int, up: bool) {
    && Grid(s, t) <= x < Grid(s + 1, t)
    && (up ==> x - Grid(s, t) >= Grid(s + 1, t) - x)
    && (!up ==> x - Grid(s, t) <= Grid(s + 1, t) - x)
    && (x - Grid(s, t) == Grid(s + 1, t) - x ==> (up <==> s % 2 == 1))
  }

  lemma DecidedIsNearest(f: Format, x: real, s: nat, t: int, up: bool)
    requires Normal(f, s) && Decides(x, s, t, up)
    ensures var (m, k) := Rounded(f, s, t, up); NearestEven(f, x, m, k)
  {
    var (m, k) := Rounded(f, s, t, up);
    if up && s + 1 == 2 * f.Hidden() {
      GridLift(f.Hidden(), t);
    }
    assert Grid(m, k) == if up then Grid(s + 1, t) else Grid(s, t);
    forall m', k' | Normal(f, m')
      ensures Dist(x, Grid(m, k)) <= Dist(x, Grid(m', k'))
      ensures Dist(x, Grid(m, k)) == Dist(x, Grid(m', k')) && (m', k') != (m, k) ==> m % 2 == 0
    {
      Gap(f, s, t, m', k');
    }
  }

  /** Within one binade the cell is found by taking the floor. */
  lemma CellInBinade(f: Format, x: real, t: int) returns (s: nat)
    requires Grid(f.Hidden(), t) <= x < Grid(f.Hidden(), t + 1)
    ensures Normal(f, s) && Grid(s, t) <= x < Grid(s + 1, t)
  {
    var h := f.Hidden();
    var y := Scaled(x, -t);
    ScaledTwice(x, -t, t);
    GridLift(h, t);
    ScaledOrder(y, h as real, t);
    ScaledOrder(y, (2 * h) as real, t);
    s := y.Floor;
    ScaledOrder(y, s as real, t);
    ScaledOrder(y, (s + 1) as real, t);
  }

  /** Every positive real lies in some cell of the grid, so the decision can be made. */
  lemma {:induction false} Cell(f: Format, x: real, t0: int, bound: nat) returns (s: nat, t: int)
    requires Grid(f.Hidden(), t0) <= x < Grid(f.Hidden(), t0 + bound)
    ensures Normal(f, s) && Grid(s, t) <= x < Grid(s + 1, t)
    decreases bound
  {
    if x < Grid(f.Hidden(), t0 + 1) {
      t := t0;
      s := CellInBinade(f, x, t0);
    } else {
      s, t := Cell(f, x, t0 + 1, bound - 1);
    }
  }

  lemma {:induction false} Archimedes(x: real, n: nat) returns (j: nat)
    requires 0.0 < x < n as real
    ensures x < Scaled(1.0, j)
    decreases n
  {
    if n == 1 {
      j := 0;
    } else if x < (n - 1) as real {
      j := Archimedes(x, n - 1);
    } else {
      var i := Archimedes(x / 2.0, n - 1);
      ScaledStep(1.0, i);
      j := i + 1;
    }
  }

  lemma Past(h: real, x: real, q: real, p: real)
    requires x > 0.0 && q * x == h && q < p
    ensures h < p * x
  {
    MulOrder(q, p, x);
  }

  lemma Above(h: real, x: real) returns (j: nat)
    requires x > 0.0 && h > 0.0
    ensures h < Scaled(x, j)
  {
    var q := Quotient(h, x);
    MulOrder(0.0, q, x);
    j := Archimedes(q, q.Floor + 1);
    Past(h, x, q, Scaled(1.0, j));
    ScaledLeft(1.0, x, j);
  }

  /** The binades cover the positive reals. */
  lemma Covered(h: nat, x: real) returns (lo: int, n: nat)
    requires x > 0.0 && h > 0
    ensures Grid(h, lo) <= x < Grid(h, lo + n)
  {
    var down: int := Above(h as real, x);
    lo := -down;
    ScaledTwice(x, down, lo);
    ScaledOrder(h as real, Scaled(x, down), lo);
    var up: int := Above(x, h as real);
    if up < lo {
      ScaledGrows(h as real, up, lo);
    }
    n := up - lo;
  }

  /** Each positive real has a nearest-even grid point. */
  lemma NearestExists(f: Format, x: real) returns (m: nat, k: int)
    requires x > 0.0
    ensures NearestEven(f, x, m, k)
  {
    var lo, n := Covered(f.Hidden(), x);
    var s, t := Cell(f, x, lo, n);
    var d := x - Grid(s, t);
    var e := Grid(s + 1, t) - x;
    var up := d > e || (d == e && s % 2 == 1);
    DecidedIsNearest(f, x, s, t, up);
    var r := Rounded(f, s, t, up);
    m, k := r.0, r.1;
  }

  lemma GridOrder(f: Format, m: int, k: int, m': int, k': int)
    requires Normal(f, m) && Normal(f, m')
    ensures Grid(m, k) == Grid(m', k') ==> (m, k) == (m', k')
    ensures k < k' ==> Grid(m, k) < Grid(m', k')
    ensures k == k' && m < m' ==> Grid(m, k) < Grid(m', k')
  {
    if k < k' {
      LowerBinade(f, m, k, m', k');
    } else if k' < k {
      LowerBinade(f, m', k', m, k);
    } else {
      Stretch(m, m', k);
      Stretch(m', m, k);
    }
  }

  /** The specification determines its answer. */
  lemma NearestIsUnique(f: Format, x: real, m: int, k: int, m': int, k': int)
    requires x > 0.0
    requires NearestEven(f, x, m, k) && NearestEven(f, x, m', k')
    ensures (m, k) == (m', k')
  {
    if (m, k) != (m', k') {
      assert Dist(x, Grid(m, k)) == Dist(x, Grid(m', k'));
      GridOrder(f, m, k, m', k');
      assert m % 2 == 0 && m' % 2 == 0;
      if Grid(m, k) < Grid(m', k') {
        EvenNeighbour(f, x, m, k, m', k');
      } else {
        EvenNeighbour(f, x, m', k', m, k);
      }
    }
  }

  /** Two even points have the odd successor of the lower one between them. */
  lemma EvenNeighbour(f: Format, x: real, m: int, k: int, m': int, k': int)
    requires NearestEven(f, x, m, k) && Normal(f, m')
    requires m % 2 == 0 && m' % 2 == 0
    requires Grid(m, k) < Grid(m', k')
    ensures Dist(x, Grid(m, k)) != Dist(x, Grid(m', k'))
  {
    Gap(f, m, k, m', k');
    assert Normal(f, m + 1);
    Stretch(m, m + 1, k);
    assert Grid(m + 1, k) < Grid(m', k');
    assert Dist(x, Grid(m, k)) <= Dist(x, Grid(m + 1, k));
  }

  /** A grid point rounds to itself. */
  lemma ExactIsNearest(f: Format, m: nat, k: int)
    requires Normal(f, m)
    ensures NearestEven(f, Grid(m, k), m, k)
  {
    Stretch(m, m + 1, k);
    DecidedIsNearest(f, Grid(m, k), m, k, false);
  }

  /** Rounding never reverses an order. */
  lemma RoundingIsMonotone(f: Format, x: real, m: int, k: int, y: real, m': int, k': int)
    requires 0.0 < x <= y
    requires NearestEven(f, x, m, k) && NearestEven(f, y, m', k')
    ensures Grid(m, k) <= Grid(m', k')
  {
    if Grid(m, k) > Grid(m', k') {
      assert Dist(x, Grid(m, k)) <= Dist(x, Grid(m', k'));
      assert Dist(y, Grid(m', k')) <= Dist(y, Grid(m, k));
      assert x == y;
      NearestIsUnique(f, x, m, k, m', k');
    }
  }
}
