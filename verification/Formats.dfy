/** What formats and directives mean to their reader, character by character: how a directive is
    read, the digits each conversion prints, and where the padding goes. */
module Formats {
  import opened Ascii
  import opened Words
  import opened Memory
  import opened Powers
  import opened Digits
  import opened Printf
  import opened PrintfLoop

  /** s is v in the base: no more digits than v needs, each the digit of its place. */
  ghost predicate IsNumeral(s: seq<byte>, v: nat, base: nat)
    requires 2 <= base <= 16
  {
    && s != [] && v < Power(base, |s|) && (|s| == 1 || v >= Power(base, |s| - 1))
    && forall i: nat :: i < |s| ==> s[|s| - 1 - i] == DigitAt(v, base, i)
  }

  /** The digit of v that counts the base to the i. */
  ghost function DigitAt(v: nat, base: nat, i: nat): byte
    requires 2 <= base <= 16
  {
    PowerPositive(base, i);
    LOWER[v / Power(base, i) % base]
  }

  lemma {:induction false} PowerPositive(base: nat, n: nat)
    requires base > 0
    ensures Power(base, n) > 0
  {
    if n > 0 {
      PowerPositive(base, n - 1);
      MulLe(1, Power(base, n - 1), base);
    }
  }

  /** The digits that format_digits produces are those. */
  lemma {:induction false} NumeralIs(v: nat, base: nat)
    requires 2 <= base <= 16
    ensures IsNumeral(Numeral(v, base), v, base)
    decreases v
  {
    hide DigitChar, Power, DigitAt, LOWER, IsNumeral;
    LowestDigit(v, base);
    PowerNext(base, 0);
    if v >= base {
      QuotientDigit(v, base);
      NumeralIs(v / base, base);
      OneMoreDigit(v, base, Numeral(v / base, base));
    } else {
      OneDigitOnly(v, base);
    }
  }

  lemma OneDigitOnly(v: nat, base: nat)
    requires 2 <= base <= 16 && v < base
    ensures IsNumeral([DigitChar(v)], v, base)
  {
    hide DigitChar, DigitAt;
    PowerNext(base, 0);
    LowestDigit(v, base);
  }

  lemma OneMoreDigit(v: nat, base: nat, t: seq<byte>)
    requires 2 <= base <= 16 && v >= base && IsNumeral(t, v / base, base)
    ensures IsNumeral(t + [DigitChar(v % base)], v, base)
  {
    hide DigitChar, Power, DigitAt, LOWER;
    var s := t + [DigitChar(v % base)];
    LowestDigit(v, base);
    PowerNext(base, 0);
    PowerNext(base, |t|);
    PowerNext(base, |t| - 1);
    QuotientBounds(v, base, Power(base, |t|));
    QuotientBounds(v, base, Power(base, |t| - 1));
    forall i: nat | i < |s|
      ensures s[|s| - 1 - i] == DigitAt(v, base, i)
    {
      if i > 0 {
        HigherDigit(v, base, i);
        assert t[|t| - 1 - (i - 1)] == DigitAt(v / base, base, i - 1);
      }
    }
  }

  lemma PowerNext(base: nat, n: nat)
    ensures Power(base, 0) == 1 && Power(base, n + 1) == base * Power(base, n)
  {
  }

  lemma LowestDigit(v: nat, base: nat)
    requires 2 <= base <= 16
    ensures DigitAt(v, base, 0) == DigitChar(v % base) && (v < base ==> v % base == v)
  {
    assert Power(base, 0) == 1;
    if v < base {
      QuotientDigit(v, base);
    }
  }

  lemma HigherDigit(v: nat, base: nat, i: nat)
    requires 2 <= base <= 16 && i > 0
    ensures DigitAt(v, base, i) == DigitAt(v / base, base, i - 1)
  {
    PowerPositive(base, i - 1);
    PowerNext(base, i - 1);
    DivideTwice(v, base, Power(base, i - 1));
  }

  lemma DivideTwice(v: nat, a: nat, b: nat)
    requires a > 0 && b > 0
    ensures a * b > 0 && v / (a * b) == v / a / b
  {
    MulLe(1, b, a);
    var q, r := v / a, v % a;
    var p, s := q / b, q % b;
    assert v == q * a + r && q == p * b + s;
    assert v == p * (a * b) + (s * a + r) by {
      assert (p * b) * a == p * (a * b);
    }
    MulLe(s + 1, b, a);
    DivMod(p, s * a + r, a * b);
  }

  lemma QuotientBounds(v: nat, base: nat, p: nat)
    requires base >= 2
    ensures v / base < p <==> v < base * p
  {
    var q := v / base;
    assert v == q * base + v % base;
    if q < p {
      MulLe(q + 1, p, base);
    } else {
      MulLe(p, q, base);
    }
  }

  /** A number has only one such numeral. */
  lemma NumeralIsUnique(s: seq<byte>, t: seq<byte>, v: nat, base: nat)
    requires 2 <= base <= 16 && IsNumeral(s, v, base) && IsNumeral(t, v, base)
    ensures s == t
  {
    hide Power, DigitAt;
    if |s| < |t| {
      PowerMonotone(base, |s|, |t| - 1);
    } else if |t| < |s| {
      PowerMonotone(base, |t|, |s| - 1);
    }
    forall k | 0 <= k < |s|
      ensures s[k] == t[k]
    {
      var i: nat := |s| - 1 - k;
      assert s[|s| - 1 - i] == DigitAt(v, base, i) && t[|t| - 1 - i] == DigitAt(v, base, i);
    }
  }

  lemma {:induction false} PowerMonotone(base: nat, m: nat, n: nat)
    requires base > 0 && m <= n
    ensures Power(base, m) <= Power(base, n)
    decreases n
  {
    if m < n {
      PowerMonotone(base, m, n - 1);
      MulLe(1, base, Power(base, n - 1));
    }
  }

  // What a directive prints.

  /** The sign and the characters a conversion puts between its padding. */
  ghost predicate Converts(conv: byte, arg: Option<Arg>, sign: seq<byte>, text: seq<byte>) {
    match conv
    case 0x64 => IsSigned(arg, sign, text)
    case 0x69 => IsSigned(arg, sign, text)
    case 0x75 => sign == [] && arg.Some? && arg.value.Word? && IsNumeral(text, arg.value.w, 10)
    case 0x78 => sign == [] && arg.Some? && arg.value.Word? && IsNumeral(text, arg.value.w, 16)
    case 0x63 => sign == [] && arg.Some? && arg.value.Word? && text == [arg.value.w % 0x100]
    case 0x73 => sign == [] && arg.Some? && arg.value.Text? && text == arg.value.s
    case 0x25 => sign == [] && text == [0x25]
    case _ => false
  }

  /** %d and %i: the word read as a signed int. */
  ghost predicate IsSigned(arg: Option<Arg>, sign: seq<byte>, text: seq<byte>) {
    && arg.Some? && arg.value.Word?
    && var w: int := arg.value.w;
    if w >= 0x8000_0000 then sign == [0x2d] && IsNumeral(text, 0x1_0000_0000 - w, 10)
    else sign == [] && IsNumeral(text, w, 10)
  }

  /** How long a field is: the width, or what is in it if that is longer. A width that overflowed
      to far below zero makes the padding wrap around. */
  function FieldLength(width: int, n: nat): int {
    if width > n then width else if width - n < -0x8000_0000 then width + 0x1_0000_0000 else n
  }

  /** Sign and text laid out to the width: with '-' in front of blanks, else with '0' around
      zeros, else behind blanks. */
  ghost predicate Fills(out: seq<byte>, p: Piece, sign: seq<byte>, text: seq<byte>)
    requires p.Directive?
  {
    var n := |sign| + |text|;
    && n <= |out| == FieldLength(p.width, n)
    && if p.left then
         out[..n] == sign + text && forall i :: n <= i < |out| ==> out[i] == 0x20
       else if p.zero then
         && out[..|sign|] == sign && out[|out| - |text|..] == text
         && forall i :: |sign| <= i < |out| - |text| ==> out[i] == 0x30
       else
         out[|out| - n..] == sign + text && forall i :: 0 <= i < |out| - n ==> out[i] == 0x20
  }

  /** Every conversion prints its characters and pads them so; what is no conversion is printed
      as it stands behind a percent sign. */
  lemma PrintsField(p: Piece, arg: Option<Arg>) returns (sign: seq<byte>, text: seq<byte>)
    requires p.Directive? && Match([p], if arg.Some? then [arg.value] else []) && (arg.Some? ==> Needs(p) == 1)
    ensures if p.conv in {0x64, 0x69, 0x75, 0x78, 0x63, 0x73, 0x25} then
              Converts(p.conv, arg, sign, text) && Fills(Print(p, arg), p, sign, text)
            else Print(p, arg) == [0x25, p.conv]
  {
    hide Padded, Numeral, IsNumeral, Int32;
    sign, text := [], [];
    if Known(p.conv) {
      sign, text := Sign(p, arg), Body(p, arg);
      BodyConverts(p, arg);
      ShortEnough(p, arg);
      var pad := Int32(p.width - (|sign| + |text|));
      PaddedFills(p, pad, sign, text);
    }
  }

  lemma BodyConverts(p: Piece, arg: Option<Arg>)
    requires p.Directive? && Known(p.conv) && (Needs(p) == 1 ==> arg.Some?)
    requires (TakesWord(p) ==> arg.value.Word?) && (TakesText(p) ==> arg.value.Text?)
    ensures Converts(p.conv, arg, Sign(p, arg), Body(p, arg))
  {
    hide Numeral, IsNumeral;
    if TakesWord(p) {
      var w := arg.value.w;
      NumeralIs(w, 10);
      NumeralIs(w, 16);
      NumeralIs(Magnitude(w), 10);
    }
  }

  lemma ShortEnough(p: Piece, arg: Option<Arg>)
    requires p.Directive? && Known(p.conv) && Match([p], if arg.Some? then [arg.value] else [])
    requires arg.Some? ==> Needs(p) == 1
    ensures |Sign(p, arg)| + |Body(p, arg)| <= 0x8000_0000
  {
    hide Numeral;
    if TakesWord(p) {
      NumeralFits(arg.value.w, 10);
      NumeralFits(arg.value.w, 16);
      NumeralFits(Magnitude(arg.value.w), 10);
    }
  }

  lemma PaddedFills(p: Piece, pad: int, sign: seq<byte>, text: seq<byte>)
    requires p.Directive? && |sign| + |text| <= 0x8000_0000 && pad == Int32(p.width - (|sign| + |text|))
    ensures Fills(Padded(p.left, p.zero, pad, sign, text), p, sign, text)
  {
    PadLength(p.width, |sign| + |text|);
    hide Int32, Repeat;
    var out := Padded(p.left, p.zero, pad, sign, text);
    if p.left {
      assert out[..|sign + text|] == sign + text;
    } else if p.zero {
      assert out[|out| - |text|..] == text;
    } else {
      assert out == Repeat(SPACE, pad) + (sign + text);
    }
  }

  lemma PadLength(width: s32, n: nat)
    requires n <= 0x8000_0000
    ensures n + (if Int32(width - n) > 0 then Int32(width - n) else 0) == FieldLength(width, n)
  {
  }

  // How a directive is read.

  lemma {:induction false} FlagsRead(flags: seq<byte>, tail: seq<byte>, left: bool, zero: bool)
    requires (forall c :: c in flags ==> c == 0x2d || c == 0x30) && (tail == [] || (tail[0] != 0x2d && tail[0] != 0x30))
    ensures Flags(flags + tail, left, zero) == (left || 0x2d in flags, zero || 0x30 in flags, tail)
    decreases |flags|
  {
    if flags == [] {
      assert flags + tail == tail;
    } else {
      assert (flags + tail)[1..] == flags[1..] + tail && flags[0] in flags;
      assert forall c :: c in flags <==> c == flags[0] || c in flags[1..];
      FlagsRead(flags[1..], tail, left || flags[0] == 0x2d, zero || flags[0] == 0x30);
    }
  }

  lemma {:induction false} WidthRead(done: seq<byte>, digits: seq<byte>, tail: seq<byte>)
    requires (forall c :: c in done ==> IsDigit(c)) && (forall c :: c in digits ==> IsDigit(c))
    requires tail == [] || !IsDigit(tail[0])
    ensures forall c :: c in done + digits ==> IsDigit(c)
    ensures Width(digits + tail, Int32(Decimal(done))) == (Int32(Decimal(done + digits)), tail)
    decreases |digits|
  {
    hide Int32, Decimal;
    if digits == [] {
      assert digits + tail == tail && done + digits == done;
    } else {
      var c := digits[0];
      assert c in digits;
      assert (digits + tail)[1..] == digits[1..] + tail;
      DecimalSnoc(done, c);
      Int32Step(Decimal(done), DigitValue(c));
      WidthRead(done + [c], digits[1..], tail);
      assert done + [c] + digits[1..] == done + digits;
    }
  }

  /** What follows a '%': flags in any order and number, a decimal width, one character. */
  lemma ParseReads(flags: seq<byte>, digits: seq<byte>, conv: byte, rest: seq<byte>)
    requires (forall c :: c in flags ==> c == 0x2d || c == 0x30)
    requires (forall c :: c in digits ==> IsDigit(c)) && (digits != [] ==> digits[0] != 0x30)
    requires !IsDigit(conv) && (digits == [] ==> conv != 0x2d)
    ensures Parse(flags + digits + [conv] + rest)
         == Some((Directive(0x2d in flags, 0x30 in flags, Int32(Decimal(digits)), conv), rest))
  {
    hide Flags, Width, Int32;
    var tail := [conv] + rest;
    assert flags + digits + [conv] + rest == flags + (digits + tail) && tail[1..] == rest;
    assert (digits + tail)[0] == if digits == [] then conv else digits[0];
    assert digits != [] ==> digits[0] in digits;
    FlagsRead(flags, digits + tail, false, false);
    assert Int32(Decimal([])) == 0 by { NoDigits([]); }
    WidthRead([], digits, tail);
    assert [] + digits == digits;
  }

  /** A format is read from left to right: characters other than '%' stand for themselves, and
      behind a '%' stands a directive. */
  lemma FormatReads(literals: seq<byte>, flags: seq<byte>, digits: seq<byte>, conv: byte, rest: seq<byte>)
    requires 0x25 !in literals && (forall c :: c in flags ==> c == 0x2d || c == 0x30)
    requires (forall c :: c in digits ==> IsDigit(c)) && (digits != [] ==> digits[0] != 0x30)
    requires !IsDigit(conv) && (digits == [] ==> conv != 0x2d)
    ensures var p := Directive(0x2d in flags, 0x30 in flags, Int32(Decimal(digits)), conv);
            Pieces(literals + [0x25] + (flags + digits + [conv] + rest)) ==
              (if Pieces(rest).None? then None else Some(Literals(literals) + [p] + Pieces(rest).value))
  {
    hide Parse, Int32, Pieces, Decimal;
    var f := flags + digits + [conv] + rest;
    ParseReads(flags, digits, conv, rest);
    assert ([0x25] + f)[1..] == f && ([0x25] + f)[0] == PERCENT;
    PiecesDirective([0x25] + f);
    LiteralsRead(literals, [0x25] + f);
    assert literals + [0x25] + f == literals + ([0x25] + f);
    if Pieces(rest).Some? {
      var p := Directive(0x2d in flags, 0x30 in flags, Int32(Decimal(digits)), conv);
      assert Literals(literals) + [p] + Pieces(rest).value == Literals(literals) + ([p] + Pieces(rest).value);
    }
  }

  function Literals(s: seq<byte>): seq<Piece> { seq(|s|, i requires 0 <= i < |s| => Literal(s[i])) }

  lemma {:induction false} LiteralsRead(s: seq<byte>, rest: seq<byte>)
    requires 0x25 !in s
    ensures Pieces(s + rest) == if Pieces(rest).None? then None else Some(Literals(s) + Pieces(rest).value)
    decreases |s|
  {
    hide Pieces;
    if s == [] {
      assert s + rest == rest;
      if Pieces(rest).Some? {
        assert Literals(s) + Pieces(rest).value == Pieces(rest).value;
      }
    } else {
      assert s[0] in s && (s + rest)[1..] == s[1..] + rest;
      PiecesLiteral(s + rest);
      LiteralsRead(s[1..], rest);
      if Pieces(rest).Some? {
        assert Literals(s) + Pieces(rest).value == [Literal(s[0])] + (Literals(s[1..]) + Pieces(rest).value);
      }
    }
  }

  /** Output is that of the pieces in turn, each with the arguments that are its own. */
  lemma {:induction false} RenderJoin(p: seq<Piece>, a: seq<Arg>, q: seq<Piece>, b: seq<Arg>)
    requires Match(p, a) && |a| == Wanted(p) && Match(q, b)
    ensures Match(p + q, a + b) && Render(p + q, a + b) == Render(p, a) + Render(q, b)
    decreases |p|
  {
    hide Print;
    if p == [] {
      assert p + q == q && a + b == b && Render(p, a) + Render(q, b) == Render(q, b);
    } else {
      assert (p + q)[1..] == p[1..] + q;
      hide Needs, TakesWord, TakesText;
      var arg := if Needs(p[0]) == 1 then Some(a[0]) else None;
      var n := Needs(p[0]);
      assert (a + b)[n..] == a[n..] + b;
      RenderNext(p, a, arg);
      RenderJoin(p[1..], a[n..], q, b);
      MatchFirst(p, a);
      MatchFirst(p + q, a + b);
      RenderNext(p + q, a + b, arg);
      hide Match, Render, Wanted;
      Regroup(Print(p[0], arg), Render(p[1..], a[n..]), Render(q, b));
    }
  }

  lemma MatchFirst(p: seq<Piece>, a: seq<Arg>)
    requires p != []
    ensures Match(p, a) <==>
              && Needs(p[0]) <= |a| && Match(p[1..], a[Needs(p[0])..])
              && (TakesWord(p[0]) ==> a[0].Word?) && (TakesText(p[0]) ==> a[0].Text? && IsString(a[0].s))
  {
    assert a[0..] == a;
  }

  /** How many arguments the pieces take. */
  function Wanted(p: seq<Piece>): nat {
    if p == [] then 0 else Needs(p[0]) + Wanted(p[1..])
  }

  // How atoi reads a string.

  /** Blanks, a sign, digits, and then something that is not a digit. */
  lemma SpelledReads(blanks: seq<byte>, sign: seq<byte>, digits: seq<byte>, rest: seq<byte>)
    requires forall c :: c in blanks ==> c == 0x20 || 0x09 <= c <= 0x0d
    requires sign == [] || sign == [0x2d] || sign == [0x2b]
    requires (forall c :: c in digits ==> IsDigit(c)) && (rest == [] || !IsDigit(rest[0]))
    requires sign == [] && digits == [] && rest != [] ==> !IsSpace(rest[0]) && rest[0] != 0x2d && rest[0] != 0x2b
    ensures Spelled(blanks + (sign + (digits + rest))) == if sign == [0x2d] then -Decimal(digits) else Decimal(digits)
  {
    hide Decimal, DigitRun, SkipSpaces;
    var t := sign + (digits + rest);
    RunOf(digits, rest);
    assert sign == [] ==> t == digits + rest;
    assert sign != [] ==> t[1..] == digits + rest && t[0] == sign[0];
    assert digits != [] ==> digits[0] in digits && (digits + rest)[0] == digits[0];
    assert digits == [] ==> digits + rest == rest;
    BlanksSkipped(blanks, t);
  }

  lemma {:induction false} BlanksSkipped(blanks: seq<byte>, t: seq<byte>)
    requires (forall c :: c in blanks ==> c == 0x20 || 0x09 <= c <= 0x0d) && (t == [] || !IsSpace(t[0]))
    ensures SkipSpaces(blanks + t) == t
    decreases |blanks|
  {
    if blanks == [] {
      assert blanks + t == t;
    } else {
      assert blanks[0] in blanks && (blanks + t)[1..] == blanks[1..] + t;
      assert forall c :: c in blanks[1..] ==> c in blanks;
      BlanksSkipped(blanks[1..], t);
    }
  }
}
