/** Guard and sticky bits: an integer that stands for a real without crossing a rounding boundary. */
module Guard {
  import opened Powers
  import opened Rounding

  /** R is y, or R is an odd multiple of g standing for some real within g of it. */
  ghost predicate Jams(R: int, y: real, g: int)
  {
    y == R as real || (g > 0 && R % (2 * g) == g && (R - g) as real < y < (R + g) as real)
  }

  lemma DecidesByFraction(x: real, z: real, s: nat, t: int, up: bool)
    requires x == Scaled(z, t) && s as real <= z < (s + 1) as real
    requires z - s as real > 0.5 ==> up
    requires z - s as real < 0.5 ==> !up
    requires z - s as real == 0.5 ==> (up <==> s % 2 == 1)
    ensures Decides(x, s, t, up)
  {
    var lo, hi := s as real, (s + 1) as real;
    ScaledOrder(z, lo, t);
    ScaledOrder(z, hi, t);
    ScaledSum(z, lo, t);
    ScaledSum(hi, z, t);
    ScaledOrder(z - lo, hi - z, t);
  }

  lemma Eighth(y: real, e: int)
    ensures Scaled(y, e - 3) == Scaled(y / 8.0, e)
  {
    EighthOf(y / 8.0, e);
    assert 8.0 * (y / 8.0) == y;
  }

  lemma EighthOf(z: real, e: int)
    ensures Scaled(8.0 * z, e - 3) == Scaled(z, e)
  {
    hide Scaled;
    ScaledLeft(z, 8.0, e - 3);
    ScaledStep(z, e - 3);
    ScaledStep(z, e - 2);
    ScaledStep(z, e - 1);
    assert Scaled(z, e) == 8.0 * Scaled(z, e - 3);
    assert z * 8.0 == 8.0 * z;
  }

  predicate RoundsUp(R: nat) {
    R % 8 > 4 || (R % 8 == 4 && R / 8 % 2 == 1)
  }

  /** Three guard bits decide correctly, even after a jammed value was shifted left once. */
  lemma GuardDecides(f: Format, R: nat, y: real, g: int, x: real, e: int)
    requires 8 * f.Hidden() <= R < 16 * f.Hidden()
    requires (g == 1 || g == 2) && Jams(R, y, g)
    requires x == Scaled(y, e - 3)
    ensures Normal(f, R / 8) && Decides(x, R / 8, e, RoundsUp(R))
  {
    Eighth(y, e);
    var s, z := R / 8, y / 8.0;
    var r := R % 8;
    assert R == 8 * s + r;
    DecidesByFraction(x, z, s, e, RoundsUp(R));
  }

  lemma {:induction false} ScaledInteger(n: int, d: nat)
    ensures Scaled(n as real, d) == (n * Pow2(d)) as real
  {
    if d > 0 {
      ScaledInteger(n, d - 1);
      assert n * Pow2(d) == 2 * (n * Pow2(d - 1));
    }
  }

  /** B | sticky in the C, where sticky is 0 or 1. */
  function Jam(q: nat, sticky: bool): nat {
    if sticky && q % 2 == 0 then q + 1 else q
  }

  lemma ShiftBounds(B: nat, d: nat, q: nat, r: nat)
    requires B == q * Pow2(d) + r && r < Pow2(d)
    ensures q as real <= Scaled(B as real, -(d as int)) < (q + 1) as real
    ensures Scaled(B as real, -(d as int)) == q as real <==> r == 0
  {
    Unshift(q, d);
    Unshift(q + 1, d);
    var lo, hi := q * Pow2(d), (q + 1) * Pow2(d);
    assert hi == lo + Pow2(d);
    ScaledOrder(lo as real, B as real, -(d as int));
    ScaledOrder(B as real, hi as real, -(d as int));
  }

  /** Shifting B right by d places leaves q and loses the bits of r; or-ing r's presence
      into the lowest bit of q jams the shifted value. */
  lemma JamShift(B: nat, d: nat, q: nat, r: nat)
    requires B == q * Pow2(d) + r && r < Pow2(d)
    ensures Jams(Jam(q, r != 0), Scaled(B as real, -(d as int)), 1)
    ensures r == 0 ==> Scaled(B as real, -(d as int)) == q as real
  {
    ShiftBounds(B, d, q, r);
    JamQuotient(q, r != 0, Scaled(B as real, -(d as int)));
  }

  lemma JamQuotient(q: nat, sticky: bool, y: real)
    requires q as real <= y < (q + 1) as real
    requires y == q as real <==> !sticky
    ensures Jams(Jam(q, sticky), y, 1)
  {
  }

  lemma Unshift(q: int, d: nat)
    ensures Scaled((q * Pow2(d)) as real, -(d as int)) == q as real
  {
    ScaledInteger(q, d);
    ScaledTwice(q as real, d, -(d as int));
  }

  /** Adding an even integer, or subtracting from one, keeps the jam. */
  lemma JamAdd(A: int, B: int, y: real)
    requires A % 2 == 0 && Jams(B, y, 1)
    ensures Jams(A + B, A as real + y, 1) && Jams(A - B, A as real - y, 1)
  {
    JamSum(A, B, y);
    JamDifference(A, B, y);
    hide Jams;
  }

  lemma JamSum(A: int, B: int, y: real)
    requires A % 2 == 0 && Jams(B, y, 1)
    ensures Jams(A + B, A as real + y, 1)
  {
  }

  lemma JamDifference(A: int, B: int, y: real)
    requires A % 2 == 0 && Jams(B, y, 1)
    ensures Jams(A - B, A as real - y, 1)
  {
  }

  lemma JamHalve(R: nat, y: real)
    requires Jams(R, y, 1)
    ensures Jams(Jam(R / 2, R % 2 != 0), y / 2.0, 1)
  {
  }

  lemma JamDouble(R: nat, y: real)
    requires Jams(R, y, 1)
    ensures Jams(2 * R, 2.0 * y, 2)
  {
  }

  lemma Halve(y: real, t: int)
    ensures Scaled(y, t) == Scaled(y / 2.0, t + 1)
    ensures Scaled(y, t) == Scaled(2.0 * y, t - 1)
  {
    var h := y / 2.0;
    assert y == h + h;
    ScaledSum(h, h, t);
    ScaledStep(h, t);
    ScaledSum(y, y, t - 1);
    ScaledStep(y, t - 1);
  }
}
