/** Signed division as C and the ZPU define it: the fraction is discarded. */
module CDivision {

  function Magnitude(x: int): nat { if x < 0 then -x else x }

  function TruncDiv(a: int, b: int): int
    requires b != 0
  {
    var q := Magnitude(a) / Magnitude(b);
    if (a < 0) != (b < 0) then -q else q
  }

  function TruncMod(a: int, b: int): int
    requires b != 0
  {
    var r := Magnitude(a) % Magnitude(b);
    if a < 0 then -r else r
  }

  /** What makes these the quotient and remainder of a by b. */
  lemma TruncIsDivision(a: int, b: int)
    requires b != 0
    ensures a == TruncDiv(a, b) * b + TruncMod(a, b)
    ensures Magnitude(TruncMod(a, b)) < Magnitude(b)
    ensures TruncMod(a, b) != 0 ==> (TruncMod(a, b) < 0 <==> a < 0)
  {
    var m := Magnitude(b);
    var q := Magnitude(a) / m;
    assert Magnitude(a) == q * m + Magnitude(a) % m;
    Signs(q, m);
  }

  lemma Signs(q: int, m: int)
    ensures (-q) * m == -(q * m) && q * (-m) == -(q * m) && (-q) * (-m) == q * m
  {
  }
}
