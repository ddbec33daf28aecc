/** C shifts and masks on unsigned words, one bit at a time. */
module Bits {
  import opened Powers

  /** w >> n */
  function Shr(w: nat, n: nat): (r: nat)
    decreases w, n
  {
    if n == 0 then w else Shr(w / 2, n - 1)
  }

  /** w & ((1 << n) - 1) */
  function Low(w: nat, n: nat): (r: nat)
    decreases w, n
  {
    if n == 0 then 0 else 2 * Low(w / 2, n - 1) + w % 2
  }

  /** (w & (1 << n)) != 0 */
  predicate Bit(w: nat, n: nat)
    decreases w, n
  {
    if n == 0 then w % 2 == 1 else Bit(w / 2, n - 1)
  }

  /** w | (1 << n) */
  function SetBit(w: nat, n: nat): nat {
    if Bit(w, n) then w else w + Pow2(n)
  }

  lemma {:induction false} Split(w: nat, n: nat)
    ensures w == Shr(w, n) * Pow2(n) + Low(w, n) && Low(w, n) < Pow2(n)
    decreases n
  {
    if n > 0 {
      Split(w / 2, n - 1);
      Doubled(Shr(w / 2, n - 1), Pow2(n - 1));
    }
  }

  lemma Doubled(a: nat, p: nat)
    ensures a * (2 * p) == 2 * (a * p)
  {
  }

  lemma ShiftsAreDivisions(w: nat, n: nat)
    ensures Shr(w, n) == w / Pow2(n) && Low(w, n) == w % Pow2(n)
  {
    Split(w, n);
    DivMod(Shr(w, n), Low(w, n), Pow2(n));
  }

  /** A word that was put together from two fields comes apart again. */
  lemma Fields(hi: nat, lo: nat, n: nat)
    requires lo < Pow2(n)
    ensures Shr(hi * Pow2(n) + lo, n) == hi && Low(hi * Pow2(n) + lo, n) == lo
  {
    ShiftsAreDivisions(hi * Pow2(n) + lo, n);
    DivMod(hi, lo, Pow2(n));
  }

  lemma {:induction false} Fits(w: nat, n: nat)
    requires w < Pow2(n)
    ensures Shr(w, n) == 0 && Low(w, n) == w
    decreases n
  {
    if n > 0 {
      Fits(w / 2, n - 1);
    }
  }

  lemma {:induction false} TopBit(w: nat, n: nat)
    requires w < 2 * Pow2(n)
    ensures Bit(w, n) <==> w >= Pow2(n)
    decreases n
  {
    if n > 0 {
      TopBit(w / 2, n - 1);
    }
  }

  lemma {:induction false} ShrShr(w: nat, m: nat, n: nat)
    ensures Shr(Shr(w, m), n) == Shr(w, m + n)
    decreases m
  {
    if m > 0 {
      ShrShr(w / 2, m - 1, n);
    }
  }

  lemma ShrDouble(w: nat, n: nat)
    ensures Shr(2 * w, n + 1) == Shr(w, n) && Low(2 * w, n + 1) == 2 * Low(w, n)
  {
    var v, m := 2 * w, n + 1;
    assert v / 2 == w && v % 2 == 0 && m - 1 == n;
    assert Shr(v, m) == Shr(v / 2, m - 1) && Low(v, m) == 2 * Low(v / 2, m - 1) + v % 2;
  }

  lemma {:induction false} ShrMonotone(v: nat, w: nat, m: nat, n: nat)
    requires v <= w && m >= n
    ensures Shr(v, m) <= Shr(w, n)
    decreases m
  {
    if n > 0 {
      ShrMonotone(v / 2, w / 2, m - 1, n - 1);
    } else if m > 0 {
      ShrMonotone(v / 2, w, m - 1, 0);
    }
  }

  /** v | w */
  function Or(v: nat, w: nat): nat
    decreases v + w
  {
    if v == 0 && w == 0 then 0
    else 2 * Or(v / 2, w / 2) + (if v % 2 == 1 || w % 2 == 1 then 1 else 0)
  }

  /** Or-ing a field in below another is adding it. */
  lemma {:induction false} OrDisjoint(hi: nat, lo: nat, n: nat)
    requires lo < Pow2(n)
    ensures Or(hi * Pow2(n), lo) == hi * Pow2(n) + lo
    decreases n
  {
    if n == 0 {
      OrZero(hi);
      assert hi * Pow2(0) == hi;
    } else {
      hide Or;
      var half := hi * Pow2(n - 1);
      assert hi * Pow2(n) == 2 * half;
      OrDisjoint(hi, lo / 2, n - 1);
      OrEven(half, lo);
    }
  }

  lemma OrEven(v: nat, w: nat)
    ensures Or(2 * v, w) == 2 * Or(v, w / 2) + w % 2
  {
  }

  lemma {:induction false} OrZero(v: nat)
    ensures Or(v, 0) == v
  {
    if v != 0 {
      OrZero(v / 2);
    }
  }

  /** v & w */
  function And(v: nat, w: nat): (r: nat)
    ensures r <= v
    decreases v, w
  {
    if v == 0 then 0
    else 2 * And(v / 2, w / 2) + (if v % 2 == 1 && w % 2 == 1 then 1 else 0)
  }

  /** v ^ w */
  function Xor(v: nat, w: nat): nat
    decreases v + w
  {
    if v == 0 && w == 0 then 0
    else 2 * Xor(v / 2, w / 2) + (if v % 2 != w % 2 then 1 else 0)
  }

  lemma {:induction false} OrBounds(v: nat, w: nat, n: nat)
    requires v < Pow2(n) && w < Pow2(n)
    ensures Or(v, w) < Pow2(n) && Xor(v, w) < Pow2(n)
    decreases n
  {
    if n > 0 && (v != 0 || w != 0) {
      OrBounds(v / 2, w / 2, n - 1);
    }
  }

  /** The low n bits of w in the opposite order. */
  function Reverse(w: nat, n: nat): (r: nat)
    ensures r < Pow2(n)
    decreases n
  {
    if n == 0 then 0 else w % 2 * Pow2(n - 1) + Reverse(w / 2, n - 1)
  }

  // What the operations do to single bits.

  lemma {:induction false} AndBits(v: nat, w: nat, n: nat)
    ensures Bit(And(v, w), n) <==> Bit(v, n) && Bit(w, n)
    decreases n
  {
    if v == 0 {
      NoBits(n);
    } else if n > 0 {
      AndBits(v / 2, w / 2, n - 1);
    }
  }

  lemma {:induction false} NoBits(n: nat)
    ensures !Bit(0, n)
  {
    if n > 0 {
      NoBits(n - 1);
    }
  }

  lemma {:induction false} OrBits(v: nat, w: nat, n: nat)
    ensures Bit(Or(v, w), n) <==> Bit(v, n) || Bit(w, n)
    decreases n
  {
    if v == 0 && w == 0 {
      NoBits(n);
    } else if n > 0 {
      OrBits(v / 2, w / 2, n - 1);
    }
  }

  lemma {:induction false} XorBits(v: nat, w: nat, n: nat)
    ensures Bit(Xor(v, w), n) <==> Bit(v, n) != Bit(w, n)
    decreases n
  {
    if v == 0 && w == 0 {
      NoBits(n);
    } else if n > 0 {
      XorBits(v / 2, w / 2, n - 1);
    }
  }

  /** Bit k of the reversed word is bit n - 1 - k of the word. */
  lemma {:induction false} ReverseBits(w: nat, n: nat, k: nat)
    requires k < n
    ensures Bit(Reverse(w, n), k) <==> Bit(w, n - 1 - k)
    decreases n
  {
    var rest := Reverse(w / 2, n - 1);
    if k == n - 1 {
      BitOnTop(w % 2, rest, n - 1);
    } else {
      ReverseBits(w / 2, n - 1, k);
      BitBelow(w % 2, rest, n - 1, k);
    }
  }

  lemma BitOnTop(b: nat, lo: nat, n: nat)
    requires b <= 1 && lo < Pow2(n)
    ensures Bit(b * Pow2(n) + lo, n) <==> b == 1
  {
    hide Bit;
    assert b * Pow2(n) == if b == 1 then Pow2(n) else 0;
    TopBit(b * Pow2(n) + lo, n);
  }

  lemma {:induction false} BitBelow(hi: nat, lo: nat, n: nat, k: nat)
    requires k < n
    ensures Bit(hi * Pow2(n) + lo, k) <==> Bit(lo, k)
    decreases k
  {
    Doubled(hi, Pow2(n - 1));
    var half := hi * Pow2(n - 1);
    assert hi * Pow2(n) + lo == 2 * half + lo;
    assert (2 * half + lo) / 2 == half + lo / 2 && (2 * half + lo) % 2 == lo % 2;
    if k > 0 {
      BitBelow(hi, lo / 2, n - 1, k - 1);
    }
  }

  /** Every bit of the complement is the other one. */
  lemma {:induction false} NotBits(w: nat, n: nat, k: nat)
    requires w < Pow2(n) && k < n
    ensures Bit(Pow2(n) - 1 - w, k) <==> !Bit(w, k)
    decreases k
  {
    var v := Pow2(n) - 1 - w;
    assert v / 2 == Pow2(n - 1) - 1 - w / 2 && v % 2 != w % 2;
    if k > 0 {
      NotBits(w / 2, n - 1, k - 1);
    }
  }

  /** A number below 2^n is determined by its n bits. */
  lemma {:induction false} BitsDetermine(v: nat, w: nat, n: nat)
    requires v < Pow2(n) && w < Pow2(n) && forall k: nat :: k < n ==> (Bit(v, k) <==> Bit(w, k))
    ensures v == w
    decreases n
  {
    if n > 0 {
      assert Bit(v, 0) <==> Bit(w, 0);
      forall k: nat | k < n - 1
        ensures Bit(v / 2, k) <==> Bit(w / 2, k)
      {
        assert Bit(v, k + 1) <==> Bit(w, k + 1);
      }
      BitsDetermine(v / 2, w / 2, n - 1);
    }
  }
}
