/** Numerals: format_digits of libc/stdio.c and atoi of libc/stdlib.c, and why one undoes the
    other. Characters are bytes. */
module Digits {
  import opened Ascii
  import opened Words
  import opened Powers

  /** The numeral of v, most significant digit first. */
  function Numeral(v: nat, base: nat): (s: seq<byte>)
    requires 2 <= base <= 16
    ensures s != []
  {
    if v < base then [DigitChar(v)] else Numeral(v / base, base) + [DigitChar(v % base)]
  }

  function DigitValue(c: byte): int { (c as int) - 0x30 }

  /** The number a string of digits denotes in a base. */
  function Denoted(s: seq<byte>, base: nat): int
    requires forall c :: c in s ==> DigitOf(c) < base
  {
    if s == [] then 0 else Denoted(s[..|s| - 1], base) * base + DigitOf(s[|s| - 1])
  }

  lemma DenotedSnoc(s: seq<byte>, c: byte, base: nat)
    requires DigitOf(c) < base && forall d :: d in s ==> DigitOf(d) < base
    ensures Denoted(s + [c], base) == Denoted(s, base) * base + DigitOf(c)
  {
    assert (s + [c])[..|s|] == s;
  }

  /** A numeral denotes its number, in digits of its base, and starts with 0 only for 0. */
  lemma {:induction false} NumeralDenotes(v: nat, base: nat)
    requires 2 <= base <= 16
    ensures (forall c :: c in Numeral(v, base) ==> DigitOf(c) < base) && Denoted(Numeral(v, base), base) == v
    ensures Numeral(v, base)[0] == 0x30 ==> v == 0
  {
    hide DigitOf, DigitChar, Denoted;
    var q, d := v / base, v % base;
    QuotientDigit(v, base);
    DigitOfChar(d);
    if v >= base {
      NumeralDenotes(q, base);
      DenotedSnoc(Numeral(q, base), DigitChar(d), base);
    } else {
      DenotedNone(base);
      DenotedSnoc([], DigitChar(d), base);
      assert [] + [DigitChar(d)] == Numeral(v, base);
    }
  }

  lemma QuotientDigit(v: nat, base: nat)
    requires base >= 2
    ensures v == v / base * base + v % base
    ensures if v >= base then 0 < v / base < v else v % base == v
  {
    var q, r := v / base, v % base;
    assert v == q * base + r;
    if v < base {
      DivMod(0, v, base);
    } else if q <= 0 {
      MulLe(q, 0, base);
    } else {
      MulLe(2, base, q);
    }
  }

  lemma DigitOfChar(d: nat)
    requires d < 16
    ensures DigitOf(DigitChar(d)) == d && (DigitChar(d) == 0x30 ==> d == 0)
  {
  }

  lemma DenotedNone(base: nat)
    ensures Denoted([], base) == 0
  {
  }

  /** Different numbers have different numerals. */
  lemma NumeralsDiffer(v: nat, w: nat, base: nat)
    requires 2 <= base <= 16 && Numeral(v, base) == Numeral(w, base)
    ensures v == w
  {
    hide Numeral, Denoted;
    NumeralDenotes(v, base);
    NumeralDenotes(w, base);
  }

  /** The number a string of decimal digits denotes. */
  function Decimal(s: seq<byte>): int
    requires forall c :: c in s ==> IsDigit(c)
  {
    Denoted(s, 10)
  }

  lemma DecimalSnoc(s: seq<byte>, c: byte)
    requires IsDigit(c) && forall d :: d in s ==> IsDigit(d)
    ensures Decimal(s + [c]) == Decimal(s) * 10 + DigitValue(c)
  {
    DenotedSnoc(s, c, 10);
  }

  /** A 32-bit word needs at most ten digits, so the 12-byte buffers are large enough. */
  lemma NumeralFits(v: word, base: nat)
    requires base == 10 || base == 16
    ensures |Numeral(v, base)| <= 10
  {
    Shorter(v, base, 10);
  }

  function Power(base: nat, n: nat): nat { if n == 0 then 1 else base * Power(base, n - 1) }

  lemma {:induction false} Shrinks(v: nat, base: nat, n: nat)
    requires 10 <= base <= 16 && n > 0 && v < Power(base, n)
    ensures |Numeral(v, base)| <= n
    decreases n
  {
    assert n == 1 ==> Power(base, n) == base * Power(base, 0);
    if v >= base {
      Lower(v, base, Power(base, n - 1));
      Shrinks(v / base, base, n - 1);
    }
  }

  lemma Lower(v: nat, base: nat, p: nat)
    requires base > 0 && v < base * p
    ensures v / base < p
  {
    var d := v / base;
    assert v == base * d + v % base;
    if d >= p {
      MulLe(p, d, base);
    }
  }

  lemma Shorter(v: word, base: nat, n: nat)
    requires (base == 10 || base == 16) && n == 10
    ensures |Numeral(v, base)| <= n
  {
    PowerOfTen(base);
    Shrinks(v, base, n);
  }

  lemma PowerOfTen(base: nat)
    requires base == 10 || base == 16
    ensures Power(base, 10) >= 0x1_0000_0000
  {
    assert Power(base, 5) >= 100_000 by {
      assert Power(base, 1) == base * Power(base, 0);
      assert Power(base, 2) == base * Power(base, 1);
      assert Power(base, 3) == base * Power(base, 2);
      assert Power(base, 4) == base * Power(base, 3);
      assert Power(base, 5) == base * Power(base, 4);
    }
    assert Power(base, 6) == base * Power(base, 5);
    assert Power(base, 7) == base * Power(base, 6);
    assert Power(base, 8) == base * Power(base, 7);
    assert Power(base, 9) == base * Power(base, 8);
    assert Power(base, 10) == base * Power(base, 9);
  }

  /** The first loop of format_digits: digits from the low end. */
  method Collect(tmp: array<byte>, v: word, base: nat) returns (n: nat)
    requires (base == 10 || base == 16) && tmp.Length == 12
    modifies tmp
    ensures n == |Numeral(v, base)| <= 10 && Reversed(tmp[..n], Numeral(v, base))
  {
    NumeralFits(v, base);
    n := 0;
    if v == 0 {
      tmp[n] := 0x30;
      return 1;
    }
    var w: nat := v;
    ghost var done: seq<byte> := [];
    assert Above(w, base) + done == Numeral(v, base);
    while w != 0
      invariant n == |done| <= 10 && Reversed(tmp[..n], done)
      invariant Above(w, base) + done == Numeral(v, base)
    {
      var d := w % base;
      OneDigit(w, base, done);
      ReversedMore(tmp[..n], done, DigitChar(d));
      tmp[n] := DigitChar(d);
      assert tmp[..n + 1] == tmp[..n] + [DigitChar(d)];
      done := [DigitChar(d)] + done;
      n := n + 1;
      w := w / base;
    }
    assert [] + done == done;
  }

  /** The digits still to be produced. */
  function Above(w: nat, base: nat): seq<byte>
    requires 2 <= base <= 16
  {
    if w == 0 then [] else Numeral(w, base)
  }

  lemma OneDigit(w: nat, base: nat, done: seq<byte>)
    requires w != 0 && (base == 10 || base == 16)
    ensures Above(w, base) + done == Above(w / base, base) + ([DigitChar(w % base)] + done)
    ensures |Above(w, base)| == |Above(w / base, base)| + 1
  {
    assert Above(w, base) == Above(w / base, base) + [DigitChar(w % base)];
  }

  /** format_digits: the collected digits, turned round into out. */
  method FormatDigits(out: array<byte>, v: word, base: nat) returns (n: nat)
    requires (base == 10 || base == 16) && out.Length >= 12
    modifies out
    ensures n == |Numeral(v, base)| <= 10 && out[..n] == Numeral(v, base)
  {
    var tmp := new byte[12];
    n := Collect(tmp, v, base);
    hide Numeral;
    ghost var t := tmp[..n];
    TurnRound(out, tmp, n);
    TurnedRound(out[..n], t, Numeral(v, base));
  }

  /** The second loop of format_digits. */
  method TurnRound(out: array<byte>, tmp: array<byte>, n: nat)
    requires out != tmp && n <= out.Length && n <= tmp.Length
    modifies out
    ensures Reversed(out[..n], tmp[..n])
  {
    for i := 0 to n
      invariant forall k :: 0 <= k < i ==> out[k] == tmp[n - 1 - k]
    {
      out[i] := tmp[n - 1 - i];
    }
  }

  lemma TurnedRound(s: seq<byte>, t: seq<byte>, u: seq<byte>)
    requires Reversed(s, t) && Reversed(t, u)
    ensures s == u
  {
    forall k | 0 <= k < |s|
      ensures s[k] == u[k]
    {
      assert s[k] == t[|t| - 1 - k] && t[|t| - 1 - k] == u[k];
    }
  }

  ghost predicate Reversed(s: seq<byte>, t: seq<byte>) {
    |s| == |t| && forall k :: 0 <= k < |s| ==> s[k] == t[|t| - 1 - k]
  }

  lemma ReversedMore(s: seq<byte>, t: seq<byte>, c: byte)
    requires Reversed(s, t)
    ensures Reversed(s + [c], [c] + t)
  {
  }

  // atoi.

  /** Leading blanks skipped. */
  function SkipSpaces(s: seq<byte>): (r: seq<byte>) {
    if s != [] && IsSpace(s[0]) then SkipSpaces(s[1..]) else s
  }

  /** The digits a string starts with. */
  function DigitRun(s: seq<byte>): (r: seq<byte>)
    ensures |r| <= |s| && r == s[..|r|] && (forall c :: c in r ==> IsDigit(c))
    ensures |r| < |s| ==> !IsDigit(s[|r|])
  {
    if s != [] && IsDigit(s[0]) then [s[0]] + DigitRun(s[1..]) else []
  }

  /** The integer a string spells, before wrapping. */
  function Spelled(s: seq<byte>): int {
    var t := SkipSpaces(s);
    if t != [] && t[0] == 0x2d then -Decimal(DigitRun(t[1..]))
    else if t != [] && t[0] == 0x2b then Decimal(DigitRun(t[1..]))
    else Decimal(DigitRun(t))
  }

  /** atoi of the string s, NUL excluded: the integer spelled, in wrapping int arithmetic. */
  method Atoi(s: seq<byte>) returns (r: s32)
    ensures r == Int32(Spelled(s))
  {
    hide DigitRun, Decimal;
    var i := 0;
    while i < |s| && IsSpace(s[i])
      invariant 0 <= i <= |s| && SkipSpaces(s[i..]) == SkipSpaces(s)
    {
      i := i + 1;
    }
    assert s[i..] == SkipSpaces(s);
    var sign := 1;
    if i < |s| && s[i] == 0x2d {
      sign := -1;
      i := i + 1;
    } else if i < |s| && s[i] == 0x2b {
      i := i + 1;
    }
    var n := ReadDigits(s, i);
    Int32Sign(Decimal(DigitRun(s[i..])), sign);
    r := Int32(sign * (n as int));
  }

  /** The digit loop of atoi. */
  method ReadDigits(s: seq<byte>, i: nat) returns (n: s32)
    requires i <= |s|
    ensures n == Int32(Decimal(DigitRun(s[i..])))
  {
    hide Int32;
    ghost var run := DigitRun(s[i..]);
    n := 0;
    var k := 0;
    NoDigits(run);
    while i + k < |s| && IsDigit(s[i + k])
      invariant 0 <= k <= |run| && n == Int32(Decimal(run[..k]))
    {
      assert s[i + k] == s[i..][k];
      assert run[k] == s[i..][..|run|][k];
      DecimalSnoc(run[..k], run[k]);
      assert run[..k + 1] == run[..k] + [run[k]];
      Int32Step(Decimal(run[..k]), DigitValue(s[i + k]));
      n := Int32(n * 10 + DigitValue(s[i + k]));
      k := k + 1;
    }
    assert run[..k] == run;
  }

  lemma NoDigits(run: seq<byte>)
    requires forall c :: c in run ==> IsDigit(c)
    ensures Int32(Decimal(run[..0])) == 0
  {
  }

  lemma Int32Step(x: int, d: int)
    ensures Int32(Int32(x) * 10 + d) == Int32(x * 10 + d)
  {
    var k := Int32Of(x);
    Int32Shift(x * 10 + d, 10 * k);
    hide Int32;
  }

  lemma Int32Sign(x: int, sign: int)
    requires sign == 1 || sign == -1
    ensures Int32(sign * Int32(x)) == Int32(sign * x)
  {
    var k := Int32Of(x);
    if sign == 1 {
      Int32Shift(x, k);
    } else {
      Int32Shift(-x, -k);
    }
    hide Int32;
    assert sign * x == if sign == 1 then x else -x;
    assert sign * Int32(x) == if sign == 1 then Int32(x) else -(Int32(x) as int);
  }

  lemma Int32Of(x: int) returns (k: int)
    ensures Int32(x) == x + k * 0x1_0000_0000
  {
    k := -(x / 0x1_0000_0000) - if x % 0x1_0000_0000 < 0x8000_0000 then 0 else 1;
  }

  lemma Int32Shift(x: int, k: int)
    ensures Int32(x + k * 0x1_0000_0000) == Int32(x)
  {
  }
}
