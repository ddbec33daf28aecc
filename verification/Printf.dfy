/** The format language of libc/stdio.c (VFORMAT_BODY): what a format means, what the loop makes
    of it in memory, what is printed for it, and the agreement of %d with atoi. */
module Printf {
  import opened Ascii
  import opened Words
  import opened Memory
  import opened Digits

  const PERCENT: byte := 0x25
  const MINUS: byte := 0x2d
  const ZERO: byte := 0x30
  const SPACE: byte := 0x20

  /** One variadic argument: a 32-bit word, or a string without its NUL. */
  datatype Arg = Word(w: word) | Text(s: seq<byte>)

  /** What a %s argument can point to: bytes up to a NUL, an int's worth at most. */
  predicate IsString(s: seq<byte>) { 0 !in s && |s| < 0x8000_0000 }

  // The format language.

  datatype Piece =
    | Literal(c: byte)
    | Directive(left: bool, zero: bool, width: s32, conv: byte)

  /** The '-' and '0' flags at the front of f, and what follows them. */
  function Flags(f: seq<byte>, left: bool, zero: bool): (bool, bool, seq<byte>) {
    if f != [] && f[0] == MINUS then Flags(f[1..], true, zero)
    else if f != [] && f[0] == ZERO then Flags(f[1..], left, true)
    else (left, zero, f)
  }

  /** The decimal width at the front of f, in wrapping int arithmetic. */
  function Width(f: seq<byte>, width: s32): (s32, seq<byte>) {
    if f != [] && IsDigit(f[0]) then Width(f[1..], Int32(width * 10 + DigitValue(f[0]))) else (width, f)
  }

  lemma {:induction false} FlagsShrink(f: seq<byte>, left: bool, zero: bool)
    ensures |Flags(f, left, zero).2| <= |f|
  {
    if f != [] && f[0] == MINUS {
      FlagsShrink(f[1..], true, zero);
    } else if f != [] && f[0] == ZERO {
      FlagsShrink(f[1..], left, true);
    }
  }

  lemma {:induction false} WidthShrinks(f: seq<byte>, width: s32)
    ensures |Width(f, width).1| <= |f|
  {
    if f != [] && IsDigit(f[0]) {
      WidthShrinks(f[1..], Int32(width * 10 + DigitValue(f[0])));
    }
  }

  /** What follows a '%': the directive and the rest, or None when the format ends inside it. */
  function Parse(f: seq<byte>): (r: Option<(Piece, seq<byte>)>)
    ensures r.Some? ==> |r.value.1| < |f|
  {
    FlagsShrink(f, false, false);
    var (left, zero, g) := Flags(f, false, false);
    WidthShrinks(g, 0);
    var (width, h) := Width(g, 0);
    if h == [] then None else Some((Directive(left, zero, width, h[0]), h[1..]))
  }

  /** A format as a list of pieces. A '%' that ends the format stands for nothing; a format
      that ends inside a directive has no meaning. */
  function Pieces(fmt: seq<byte>): (r: Option<seq<Piece>>)
    decreases |fmt|
  {
    if fmt == [] || fmt == [PERCENT] then Some([])
    else if fmt[0] != PERCENT then
      var rest :- Pieces(fmt[1..]);
      Some([Literal(fmt[0])] + rest)
    else
      var (piece, f) :- Parse(fmt[1..]);
      var rest :- Pieces(f);
      Some([piece] + rest)
  }

  // The format as the loop meets it: in memory, with a NUL behind it and other bytes behind that.

  /** The pieces found, and where the NUL is that ends the loop. */
  datatype Scanned = Scanned(pieces: seq<Piece>, stop: nat)

  /** What the loop makes of the bytes of memory from the format's first on; None when it
      reads them all without coming to an end. */
  function Scan(text: seq<byte>): (r: Option<Scanned>)
    decreases |text|
  {
    if text == [] then None
    else if text[0] == 0 then Some(Scanned([], 0))
    else if text[0] != PERCENT then
      var rest :- Scan(text[1..]);
      Some(Scanned([Literal(text[0])] + rest.pieces, 1 + rest.stop))
    else if |text| == 1 then None
    else if text[1] == 0 then Some(Scanned([], 1))
    else
      var (piece, after) :- Parse(text[1..]);
      var rest :- Scan(after);
      Some(Scanned([piece] + rest.pieces, |text| - |after| + rest.stop))
  }

  /** A scan ends at a NUL of the memory scanned. */
  lemma {:induction false} ScanEndsAtNul(text: seq<byte>)
    ensures Scan(text).Some? ==> Scan(text).value.stop < |text| && text[Scan(text).value.stop] == 0
    decreases |text|
  {
    hide Parse;
    if text != [] && text[0] != 0 && text[0] != PERCENT {
      ScanEndsAtNul(text[1..]);
    } else if |text| > 1 && text[0] == PERCENT && Parse(text[1..]).Some? {
      ParseSuffix(text[1..]);
      ScanEndsAtNul(Parse(text[1..]).value.1);
    }
  }

  lemma {:induction false} FlagsSuffix(f: seq<byte>, left: bool, zero: bool)
    ensures IsSuffix(f, Flags(f, left, zero).2)
  {
    if f != [] && f[0] == MINUS {
      FlagsSuffix(f[1..], true, zero);
      SuffixOfTail(f, Flags(f[1..], true, zero).2);
    } else if f != [] && f[0] == ZERO {
      FlagsSuffix(f[1..], left, true);
      SuffixOfTail(f, Flags(f[1..], left, true).2);
    }
  }

  predicate IsSuffix(f: seq<byte>, g: seq<byte>) { |g| <= |f| && g == f[|f| - |g|..] }

  lemma SuffixOfTail(f: seq<byte>, g: seq<byte>)
    requires f != [] && IsSuffix(f[1..], g)
    ensures IsSuffix(f, g)
  {
  }

  lemma {:induction false} WidthSuffix(f: seq<byte>, width: s32)
    ensures IsSuffix(f, Width(f, width).1)
  {
    if f != [] && IsDigit(f[0]) {
      var w := Int32(width * 10 + DigitValue(f[0]));
      WidthSuffix(f[1..], w);
      SuffixOfTail(f, Width(f[1..], w).1);
    }
  }

  lemma ParseSuffix(f: seq<byte>)
    ensures Parse(f).Some? ==> var g := Parse(f).value.1; |g| < |f| && g == f[|f| - |g|..]
  {
    FlagsSuffix(f, false, false);
    WidthSuffix(Flags(f, false, false).2, 0);
  }

  lemma {:induction false} FlagsBefore(f: seq<byte>, left: bool, zero: bool, t: seq<byte>)
    requires t != [] && t[0] == 0
    ensures var (l, z, g) := Flags(f, left, zero); Flags(f + t, left, zero) == (l, z, g + t)
  {
    if f != [] {
      assert (f + t)[1..] == f[1..] + t;
      if f[0] == MINUS {
        FlagsBefore(f[1..], true, zero, t);
      } else if f[0] == ZERO {
        FlagsBefore(f[1..], left, true, t);
      }
    }
  }

  lemma {:induction false} WidthBefore(f: seq<byte>, width: s32, t: seq<byte>)
    requires t != [] && t[0] == 0
    ensures var (w, g) := Width(f, width); Width(f + t, width) == (w, g + t)
  {
    if f != [] {
      assert (f + t)[1..] == f[1..] + t;
      if IsDigit(f[0]) {
        WidthBefore(f[1..], Int32(width * 10 + DigitValue(f[0])), t);
      }
    }
  }

  /** A directive cut short takes the NUL for its conversion character. */
  lemma ParseBefore(f: seq<byte>, after: seq<byte>)
    ensures Parse(f + ([0] + after)).Some?
    ensures var (p, rest) := Parse(f + ([0] + after)).value;
            && p.Directive?
            && if Parse(f).Some? then p == Parse(f).value.0 && rest == Parse(f).value.1 + ([0] + after)
               else p.conv == 0 && rest == after
  {
    var t := [0] + after;
    FlagsBefore(f, false, false, t);
    var (left, zero, g) := Flags(f, false, false);
    WidthBefore(g, 0, t);
    hide Flags, Width;
    var (width, h) := Width(g, 0);
    if h != [] {
      assert (h + t)[1..] == h[1..] + t;
    } else {
      assert h + t == t && t[1..] == after;
    }
  }

  /** A loop that passes over every character it emits, as printf's and sprintf's does, stops at
      the format's own NUL, with the format's pieces, if and only if the format does not end
      inside a directive. If it does, the NUL is passed over as that
      directive's conversion and the loop goes on with whatever lies behind it. */
  lemma {:induction false} StopsAtNul(fmt: seq<byte>, after: seq<byte>)
    requires 0 !in fmt
    ensures var r := Scan(fmt + ([0] + after));
            && (Pieces(fmt).Some? <==> r.Some? && r.value.stop == |fmt|)
            && (Pieces(fmt).Some? ==> r.value.pieces == Pieces(fmt).value)
            && (Pieces(fmt).None? ==> PassesOver(r, |fmt|, Scan(after)))
    decreases |fmt|
  {
    hide Parse, PassesOver, Scan, Pieces;
    var text := fmt + ([0] + after);
    if fmt == [] || fmt == [PERCENT] {
      assert text[|fmt|] == 0;
      EndsHere(text, fmt);
    } else if fmt[0] != PERCENT {
      assert text[0] == fmt[0] && text[1..] == fmt[1..] + ([0] + after);
      StopsAtNul(fmt[1..], after);
      ScanLiteral(text);
      PiecesLiteral(fmt);
      PassesEarlier(Literal(fmt[0]), 1, Scan(text[1..]), |fmt| - 1, Scan(after));
    } else {
      assert text[0] == fmt[0] && text[1] == fmt[1] && fmt[1] in fmt;
      assert text[1..] == fmt[1..] + ([0] + after);
      ParseBefore(fmt[1..], after);
      var (p, rest) := Parse(text[1..]).value;
      ScanDirective(text);
      PiecesDirective(fmt);
      if Parse(fmt[1..]).Some? {
        ParseSuffix(fmt[1..]);
        var f := Parse(fmt[1..]).value.1;
        StopsAtNul(f, after);
        PassesEarlier(p, |fmt| - |f|, Scan(rest), |f|, Scan(after));
      } else {
        PassesHere(p, |fmt| + 1, Scan(after));
      }
    }
  }

  lemma EndsHere(text: seq<byte>, fmt: seq<byte>)
    requires (fmt == [] || fmt == [PERCENT]) && |fmt| < |text| && fmt == text[..|fmt|] && text[|fmt|] == 0
    ensures Scan(text) == Some(Scanned([], |fmt|)) && Pieces(fmt) == Some([])
  {
    assert fmt != [] ==> text[0] == fmt[0];
  }

  lemma ScanLiteral(text: seq<byte>)
    requires text != [] && text[0] != 0 && text[0] != PERCENT
    ensures Scan(text) == Before(Literal(text[0]), 1, Scan(text[1..]))
  {
  }

  lemma PiecesLiteral(fmt: seq<byte>)
    requires fmt != [] && fmt[0] != PERCENT
    ensures var rest := Pieces(fmt[1..]);
            Pieces(fmt) == if rest.None? then None else Some([Literal(fmt[0])] + rest.value)
  {
  }

  lemma ScanDirective(text: seq<byte>)
    requires |text| > 1 && text[0] == PERCENT && text[1] != 0 && Parse(text[1..]).Some?
    ensures var (p, after) := Parse(text[1..]).value;
            |after| <= |text| && Scan(text) == Before(p, |text| - |after|, Scan(after))
  {
    hide Parse;
  }

  lemma PiecesDirective(fmt: seq<byte>)
    requires |fmt| > 1 && fmt[0] == PERCENT
    ensures Parse(fmt[1..]).None? ==> Pieces(fmt).None?
    ensures Parse(fmt[1..]).Some? ==>
              var (p, f) := Parse(fmt[1..]).value;
              Pieces(fmt) == if Pieces(f).None? then None else Some([p] + Pieces(f).value)
  {
    hide Parse;
  }

  /** r comes from a scan that goes over a NUL at position n and on to the scan `next`. */
  ghost predicate PassesOver(r: Option<Scanned>, n: nat, next: Option<Scanned>) {
    && (r.Some? <==> next.Some?)
    && (r.Some? ==>
          var k := |r.value.pieces| - |next.value.pieces|;
          && r.value.stop == n + 1 + next.value.stop && k > 0 && r.value.pieces[k..] == next.value.pieces
          && r.value.pieces[k - 1].Directive? && r.value.pieces[k - 1].conv == 0)
  }

  /** One piece of n bytes in front of a scan. */
  function Before(p: Piece, n: nat, r: Option<Scanned>): Option<Scanned> {
    if r.None? then None else Some(Scanned([p] + r.value.pieces, n + r.value.stop))
  }

  lemma PassesEarlier(p: Piece, d: nat, r: Option<Scanned>, n: nat, next: Option<Scanned>)
    ensures PassesOver(r, n, next) ==> PassesOver(Before(p, d, r), d + n, next)
  {
    if PassesOver(r, n, next) && r.Some? {
      var k := |r.value.pieces| - |next.value.pieces|;
      assert ([p] + r.value.pieces)[k + 1..] == r.value.pieces[k..];
    }
  }

  lemma PassesHere(p: Piece, n: nat, next: Option<Scanned>)
    requires p.Directive? && p.conv == 0 && n > 0
    ensures PassesOver(Before(p, n, next), n - 1, next)
  {
  }

  /** The format "%5": the loop prints a percent sign and a NUL and runs on behind the string. */
  lemma CutShort(after: seq<byte>)
    ensures Pieces([PERCENT, 0x35]).None?
    ensures Scan([PERCENT, 0x35, 0] + after)
         == match Scan(after)
            case None => None
            case Some(next) => Some(Scanned([Directive(false, false, 5, 0)] + next.pieces, 3 + next.stop))
    ensures Print(Directive(false, false, 5, 0), None) == [PERCENT, 0]
  {
    hide Parse, Scan, Pieces;
    var text := [PERCENT, 0x35, 0] + after;
    assert [PERCENT, 0x35][1..] == [0x35] && text[1..] == [0x35, 0] + after;
    FiveCutShort(after);
    ScanDirective(text);
    PiecesDirective([PERCENT, 0x35]);
  }

  lemma FiveCutShort(after: seq<byte>)
    ensures Parse([0x35]).None?
    ensures Parse([0x35, 0] + after) == Some((Directive(false, false, 5, 0), after))
  {
    var f, g: seq<byte> := [0x35], [0x35, 0] + after;
    assert f[1..] == [] && g[1..] == [0] + after && g[1..][1..] == after;
    assert Width(f[1..], 5) == (5, []) && Width(g[1..], 5) == (5, g[1..]);
    assert Width(f, 0) == (5, []) && Width(g, 0) == (5, g[1..]);
  }

  // What pieces print.

  /** (int)w */
  function SignedWord(w: word): s32 { Int32(w) }

  function Magnitude(w: word): word {
    if w < 0x8000_0000 then w else 0x1_0000_0000 - w
  }

  predicate TakesWord(p: Piece) {
    p.Directive? && p.conv in {0x64, 0x69, 0x75, 0x78, 0x63}
  }

  predicate TakesText(p: Piece) { p.Directive? && p.conv == 0x73 }

  function Needs(p: Piece): nat { if TakesWord(p) || TakesText(p) then 1 else 0 }

  /** Each directive finds an argument of its kind. */
  predicate Match(pieces: seq<Piece>, args: seq<Arg>) {
    if pieces == [] then true
    else
      var p := pieces[0];
      && (Needs(p) == 1 ==>
            args != [] && (if TakesWord(p) then args[0].Word? else args[0].Text? && IsString(args[0].s)))
      && Match(pieces[1..], if Needs(p) == 1 then args[1..] else args)
  }

  /** The sign printed before the digits. */
  function Sign(p: Piece, arg: Option<Arg>): seq<byte> {
    if p.Directive? && p.conv in {0x64, 0x69} && arg.Some? && arg.value.Word? && SignedWord(arg.value.w) < 0
    then [MINUS]
    else []
  }

  /** The text of a directive without sign and padding. */
  function Body(p: Piece, arg: Option<Arg>): seq<byte>
    requires p.Directive? && (Needs(p) == 1 ==> arg.Some?)
    requires TakesWord(p) ==> arg.value.Word?
    requires TakesText(p) ==> arg.value.Text?
  {
    match p.conv {
      case 0x64 => Numeral(Magnitude(arg.value.w), 10)
      case 0x69 => Numeral(Magnitude(arg.value.w), 10)
      case 0x75 => Numeral(arg.value.w, 10)
      case 0x78 => Numeral(arg.value.w, 16)
      case 0x63 => [LowByte(arg.value.w)]
      case 0x73 => arg.value.s
      case _ => [PERCENT]
    }
  }

  function Repeat(c: byte, n: int): (s: seq<byte>)
    ensures |s| == if n > 0 then n else 0
    ensures forall i :: 0 <= i < |s| ==> s[i] == c
  {
    if n <= 0 then [] else Repeat(c, n - 1) + [c]
  }

  /** Sign and body padded to the width: blanks behind, zeros between, or blanks before. */
  function Padded(left: bool, zero: bool, pad: int, sign: seq<byte>, body: seq<byte>): seq<byte> {
    if left then sign + body + Repeat(SPACE, pad)
    else if zero then sign + Repeat(ZERO, pad) + body
    else Repeat(SPACE, pad) + sign + body
  }

  predicate Known(conv: byte) { conv in {0x64, 0x69, 0x75, 0x78, 0x63, 0x73, PERCENT} }

  function Print(p: Piece, arg: Option<Arg>): seq<byte>
    requires Needs(p) == 1 ==> arg.Some?
    requires TakesWord(p) ==> arg.value.Word?
    requires TakesText(p) ==> arg.value.Text?
  {
    match p {
      case Literal(c) => [c]
      case Directive(left, zero, width, conv) =>
        if Known(conv) then
          var sign, body := Sign(p, arg), Body(p, arg);
          Padded(left, zero, Int32(width - (|sign| + |body|)), sign, body)
        else [PERCENT, conv]
    }
  }

  /** The whole output of a format. */
  function Render(pieces: seq<Piece>, args: seq<Arg>): seq<byte>
    requires Match(pieces, args)
  {
    if pieces == [] then []
    else if Needs(pieces[0]) == 1 then Print(pieces[0], Some(args[0])) + Render(pieces[1..], args[1..])
    else Print(pieces[0], None) + Render(pieces[1..], args)
  }

  // %d and atoi.

  lemma {:induction false} SkipBlanks(n: int, t: seq<byte>)
    requires t != [] && !IsSpace(t[0])
    ensures SkipSpaces(Repeat(SPACE, n) + t) == t
    decreases if n < 0 then 0 else n
  {
    if n > 0 {
      SkipBlanks(n - 1, t);
      var u := Repeat(SPACE, n) + t;
      assert u[1..] == Repeat(SPACE, n - 1) + t;
    } else {
      assert Repeat(SPACE, n) + t == t;
    }
  }

  lemma {:induction false} RunOf(ds: seq<byte>, rest: seq<byte>)
    requires (forall c :: c in ds ==> IsDigit(c)) && (rest == [] || !IsDigit(rest[0]))
    ensures DigitRun(ds + rest) == ds
    decreases |ds|
  {
    if ds != [] {
      RunOf(ds[1..], rest);
      assert (ds + rest)[1..] == ds[1..] + rest;
    } else {
      assert ds + rest == rest;
    }
  }

  /** Leading zeros do not change a number. */
  lemma {:induction false} LeadingZeros(n: int, s: seq<byte>)
    requires forall c :: c in s ==> IsDigit(c)
    ensures (forall c :: c in Repeat(ZERO, n) + s ==> IsDigit(c)) && Decimal(Repeat(ZERO, n) + s) == Decimal(s)
    decreases |s|, if n < 0 then 0 else n
  {
    var t := Repeat(ZERO, n) + s;
    if s != [] {
      LeadingZeros(n, s[..|s| - 1]);
      assert t[..|t| - 1] == Repeat(ZERO, n) + s[..|s| - 1];
    } else if n > 0 {
      LeadingZeros(n - 1, []);
      assert t[..|t| - 1] == Repeat(ZERO, n - 1) + [];
    }
  }

  /** A numeral, with whatever padding and sign a directive puts around it, spells its number. */
  lemma PaddedSpells(left: bool, zero: bool, pad: int, negative: bool, body: seq<byte>)
    requires body != [] && forall c :: c in body ==> IsDigit(c)
    ensures var sign := if negative then [MINUS] else [];
            Spelled(Padded(left, zero, pad, sign, body)) == if negative then -Decimal(body) else Decimal(body)
  {
    hide Decimal, Spelled, Repeat;
    var sign := if negative then [MINUS] else [];
    assert body[0] in body;
    if left {
      AfterSign(negative, body, Repeat(SPACE, pad));
      assert sign + body + Repeat(SPACE, pad) == sign + (body + Repeat(SPACE, pad));
    } else if zero {
      LeadingZeros(pad, body);
      var ds := Repeat(ZERO, pad) + body;
      AfterSign(negative, ds, []);
      assert sign + (ds + []) == sign + Repeat(ZERO, pad) + body;
    } else {
      AfterSign(negative, body, []);
      var t := sign + (body + []);
      assert Repeat(SPACE, pad) + sign + body == Repeat(SPACE, pad) + t;
      BlanksSpell(pad, t);
    }
  }

  lemma BlanksSpell(n: int, t: seq<byte>)
    requires t != [] && !IsSpace(t[0]) && SkipSpaces(t) == t
    ensures Spelled(Repeat(SPACE, n) + t) == Spelled(t)
  {
    SkipBlanks(n, t);
    hide SkipSpaces, DigitRun, Decimal;
  }

  /** Sign, digits, and then something that is not a digit. */
  lemma AfterSign(negative: bool, ds: seq<byte>, rest: seq<byte>)
    requires ds != [] && (forall c :: c in ds ==> IsDigit(c)) && (rest == [] || !IsDigit(rest[0]))
    ensures var t := (if negative then [MINUS] else []) + (ds + rest);
            t != [] && !IsSpace(t[0]) && SkipSpaces(t) == t
            && Spelled(t) == if negative then -Decimal(ds) else Decimal(ds)
  {
    hide Decimal, DigitRun, Spelled, SkipSpaces;
    RunOf(ds, rest);
    var u := ds + rest;
    assert ds[0] in ds && u[0] == ds[0];
    if negative {
      assert ([MINUS] + u)[1..] == u;
      SpelledMinus([MINUS] + u, ds);
    } else {
      assert [] + u == u;
      SpelledPlain(u, ds);
    }
  }

  lemma SpelledPlain(t: seq<byte>, ds: seq<byte>)
    requires t != [] && IsDigit(t[0]) && DigitRun(t) == ds
    ensures SkipSpaces(t) == t && Spelled(t) == Decimal(ds)
  {
    hide DigitRun, Decimal;
  }

  lemma SpelledMinus(t: seq<byte>, ds: seq<byte>)
    requires t != [] && t[0] == MINUS && DigitRun(t[1..]) == ds
    ensures SkipSpaces(t) == t && Spelled(t) == -Decimal(ds)
  {
    hide DigitRun, Decimal;
  }

  /** What a %d prints. */
  lemma PrintIs(p: Piece, w: word) returns (pad: int)
    requires p.Directive? && p.conv in {0x64, 0x69}
    ensures var sign := if SignedWord(w) < 0 then [MINUS] else [];
            Print(p, Some(Word(w))) == Padded(p.left, p.zero, pad, sign, Numeral(Magnitude(w), 10))
  {
    hide Padded, Numeral, Int32;
    pad := Int32(p.width - (|Sign(p, Some(Word(w)))| + |Body(p, Some(Word(w)))|));
  }

  lemma DecimalNumeral(v: nat)
    ensures (forall c :: c in Numeral(v, 10) ==> IsDigit(c)) && Decimal(Numeral(v, 10)) == v
  {
    hide Numeral, Denoted;
    NumeralDenotes(v, 10);
  }

  lemma SignedMagnitude(w: word)
    ensures Int32(if SignedWord(w) < 0 then -(Magnitude(w) as int) else Magnitude(w)) == SignedWord(w)
  {
  }

  /** atoi reads back what %d printed, for every word, every flag and every width. */
  lemma PrintThenAtoi(fmt: seq<byte>, p: Piece, w: word)
    requires Pieces(fmt) == Some([p]) && p.Directive? && p.conv in {0x64, 0x69}
    ensures Match([p], [Word(w)]) && Int32(Spelled(Render([p], [Word(w)]))) == SignedWord(w)
  {
    hide Denoted, Spelled, Padded, Print, Render, Numeral, Decimal, Int32, SignedWord, Magnitude, Pieces, Match;
    RenderOne(p, Word(w));
    DecimalNumeral(Magnitude(w));
    hide TakesWord, TakesText, Needs;
    var pad := PrintIs(p, w);
    PaddedSpells(p.left, p.zero, pad, SignedWord(w) < 0, Numeral(Magnitude(w), 10));
    SignedMagnitude(w);
  }

  lemma RenderOne(p: Piece, arg: Arg)
    requires Needs(p) == 1 && (if TakesWord(p) then arg.Word? else arg.Text? && IsString(arg.s))
    ensures Match([p], [arg]) && Render([p], [arg]) == Print(p, Some(arg))
  {
    assert [p][1..] == [] && [arg][1..] == [];
    assert Render([], []) == [];
    assert Print(p, Some(arg)) + [] == Print(p, Some(arg));
  }
}
