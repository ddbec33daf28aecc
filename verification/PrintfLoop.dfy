/** VFORMAT_BODY of libc/stdio.c as it runs for sprintf: one pass over the format, writing into
    a buffer. What it does with one directive serves snprintf too. */
module PrintfLoop {
  import opened Ascii
  import opened Words
  import opened Memory
  import opened Digits
  import opened Printf

  /** buf shows the output so far, as far as the limit lets it, and is otherwise as before. */
  ghost predicate Shows(before: seq<byte>, now: seq<byte>, limit: nat, out: seq<byte>) {
    && |now| == |before|
    && forall i :: 0 <= i < |now| ==> now[i] == if i < |out| && i < limit then out[i] else before[i]
  }

  /** EMIT_BOUNDED when `bounded`, EMIT_UNBOUNDED otherwise. */
  method Emit(buf: array<byte>, bounded: bool, limit: nat, c: byte, pos: word, ghost before: seq<byte>,
              ghost out: seq<byte>)
    returns (next: word)
    requires limit <= buf.Length && (bounded || |out| < limit) && pos == |out| < W32 - 1
    requires Shows(before, buf[..], limit, out)
    modifies buf
    ensures Shows(before, buf[..], limit, out + [c]) && next == |out| + 1
  {
    if !bounded || pos < limit {
      buf[pos] := c;
    }
    next := ((pos as int) + 1) % W32;
  }

  /** for (int k = 0; k < |text|; k++) EMIT(text[k]) */
  method EmitAll(buf: array<byte>, bounded: bool, limit: nat, text: seq<byte>, pos: word,
                 ghost before: seq<byte>, ghost out: seq<byte>) returns (next: word)
    requires limit <= buf.Length && (bounded || |out| + |text| <= limit) && pos == |out| && |out| + |text| < W32
    requires Shows(before, buf[..], limit, out)
    modifies buf
    ensures Shows(before, buf[..], limit, out + text) && next == |out| + |text|
  {
    hide Shows;
    next := pos;
    assert out + text[..0] == out;
    for k := 0 to |text|
      invariant Shows(before, buf[..], limit, out + text[..k]) && next == |out| + k
    {
      next := Emit(buf, bounded, limit, text[k], next, before, out + text[..k]);
      assert out + text[..k] + [text[k]] == out + text[..k + 1];
    }
    assert text[..|text|] == text;
  }

  /** for (int k = 0; k < pad; k++) EMIT(c) */
  method EmitPad(buf: array<byte>, bounded: bool, limit: nat, c: byte, pad: int, pos: word,
                 ghost before: seq<byte>, ghost out: seq<byte>) returns (next: word)
    requires limit <= buf.Length && (bounded || |out| + |Repeat(c, pad)| <= limit)
    requires pos == |out| && |out| + |Repeat(c, pad)| < W32 && Shows(before, buf[..], limit, out)
    modifies buf
    ensures Shows(before, buf[..], limit, out + Repeat(c, pad)) && next == |out| + |Repeat(c, pad)|
  {
    hide Shows;
    next := pos;
    var k := 0;
    assert out + Repeat(c, 0) == out;
    while k < pad
      invariant 0 <= k && (k <= pad || k == 0)
      invariant Shows(before, buf[..], limit, out + Repeat(c, k)) && next == |out| + k
      decreases pad - k
    {
      next := Emit(buf, bounded, limit, c, next, before, out + Repeat(c, k));
      assert out + Repeat(c, k) + [c] == out + Repeat(c, k + 1);
      k := k + 1;
    }
    assert Repeat(c, k) == Repeat(c, pad);
  }

  // The parts of one directive.

  method ParseFlags(text: seq<byte>, i: nat) returns (left: bool, zero: bool, j: nat)
    requires i <= |text| && Flags(text[i..], false, false).2 != []
    ensures i <= j < |text| && Flags(text[i..], false, false) == (left, zero, text[j..])
  {
    left, zero, j := false, false, i;
    while true
      invariant i <= j <= |text| && Flags(text[j..], left, zero) == Flags(text[i..], false, false)
      decreases |text| - j
    {
      if text[j] == MINUS {
        left := true;
        j := j + 1;
      } else if text[j] == ZERO {
        zero := true;
        j := j + 1;
      } else {
        break;
      }
    }
  }

  method ParseWidth(text: seq<byte>, i: nat) returns (width: s32, j: nat)
    requires i <= |text| && Width(text[i..], 0).1 != []
    ensures i <= j < |text| && Width(text[i..], 0) == (width, text[j..])
  {
    hide Int32;
    width, j := 0, i;
    while IsDigit(text[j])
      invariant i <= j < |text| && Width(text[j..], width) == Width(text[i..], 0)
      decreases |text| - j
    {
      width := Int32(width * 10 + DigitValue(text[j]));
      j := j + 1;
    }
  }

  lemma ParseParts(f: seq<byte>)
    requires Parse(f).Some?
    ensures var (left, zero, g) := Flags(f, false, false);
            var (width, h) := Width(g, 0);
            g != [] && h != [] && Parse(f) == Some((Directive(left, zero, width, h[0]), h[1..]))
  {
    WidthSuffix(Flags(f, false, false).2, 0);
    hide Flags, Width;
  }

  method ParseDirective(text: seq<byte>, i: nat) returns (p: Piece, j: nat)
    requires i <= |text| && Parse(text[i..]).Some?
    ensures i < j <= |text| && p.Directive? && Parse(text[i..]) == Some((p, text[j..]))
  {
    hide Flags, Width, Parse;
    ParseParts(text[i..]);
    var left, zero, k := ParseFlags(text, i);
    var width, l := ParseWidth(text, k);
    p, j := Directive(left, zero, width, text[l]), l + 1;
    assert text[l..][1..] == text[l + 1..];
  }

  /** The chain of comparisons on the conversion character: sign and digits. */
  method Convert(p: Piece, arg: Option<Arg>) returns (sign: seq<byte>, body: seq<byte>)
    requires p.Directive? && Known(p.conv) && (Needs(p) == 1 ==> arg.Some?)
    requires (TakesWord(p) ==> arg.value.Word?) && (TakesText(p) ==> arg.value.Text?)
    ensures sign == Sign(p, arg) && body == Body(p, arg)
  {
    hide Numeral;
    var digits := new byte[12];
    sign, body := [], [];
    if p.conv == 0x64 || p.conv == 0x69 {
      var v := SignedWord(arg.value.w);
      var n: nat;
      if v < 0 {
        sign := [MINUS];
        NegatedWord(arg.value.w);
        n := FormatDigits(digits, Int32(-(v as int)) % W32, 10);
      } else {
        NegatedWord(arg.value.w);
        n := FormatDigits(digits, v % W32, 10);
      }
      body := digits[..n];
    } else if p.conv == 0x75 {
      var n := FormatDigits(digits, arg.value.w, 10);
      body := digits[..n];
    } else if p.conv == 0x78 {
      var n := FormatDigits(digits, arg.value.w, 16);
      body := digits[..n];
    } else if p.conv == 0x63 {
      body := [LowByte(arg.value.w)];
    } else if p.conv == 0x73 {
      body := arg.value.s;
    } else {
      body := [PERCENT];
    }
  }

  /** (unsigned)(-v) is the magnitude, even for the smallest int, whose negation wraps. */
  lemma NegatedWord(w: word)
    ensures SignedWord(w) < 0 ==> Int32(-(SignedWord(w) as int)) % W32 == Magnitude(w)
    ensures SignedWord(w) >= 0 ==> SignedWord(w) % W32 == Magnitude(w)
  {
  }

  /** The three layouts of a padded field. */
  method EmitField(buf: array<byte>, bounded: bool, limit: nat, left: bool, zero: bool, pad: int, sign: seq<byte>,
                   body: seq<byte>, pos: word, ghost before: seq<byte>, ghost out: seq<byte>) returns (next: word)
    requires limit <= buf.Length && (bounded || |out| + |Padded(left, zero, pad, sign, body)| <= limit)
    requires pos == |out| && |out| + |Padded(left, zero, pad, sign, body)| < W32 && Shows(before, buf[..], limit, out)
    modifies buf
    ensures Shows(before, buf[..], limit, out + Padded(left, zero, pad, sign, body))
    ensures next == |out| + |Padded(left, zero, pad, sign, body)|
  {
    hide Shows, Repeat;
    if left {
      next := EmitAll(buf, bounded, limit, sign, pos, before, out);
      next := EmitAll(buf, bounded, limit, body, next, before, out + sign);
      next := EmitPad(buf, bounded, limit, SPACE, pad, next, before, out + sign + body);
      assert out + sign + body + Repeat(SPACE, pad) == out + (sign + body + Repeat(SPACE, pad));
    } else if zero {
      next := EmitAll(buf, bounded, limit, sign, pos, before, out);
      next := EmitPad(buf, bounded, limit, ZERO, pad, next, before, out + sign);
      next := EmitAll(buf, bounded, limit, body, next, before, out + sign + Repeat(ZERO, pad));
      assert out + sign + Repeat(ZERO, pad) + body == out + (sign + Repeat(ZERO, pad) + body);
    } else {
      next := EmitPad(buf, bounded, limit, SPACE, pad, pos, before, out);
      next := EmitAll(buf, bounded, limit, sign, next, before, out + Repeat(SPACE, pad));
      next := EmitAll(buf, bounded, limit, body, next, before, out + Repeat(SPACE, pad) + sign);
      assert out + Repeat(SPACE, pad) + sign + body == out + (Repeat(SPACE, pad) + sign + body);
    }
  }

  // The loop.

  /** Between pieces: what is out, and what the rest of the format will add. */
  ghost predicate Formatting(text: seq<byte>, args: seq<Arg>, i: nat, a: nat, rest: Scanned, out: seq<byte>,
                             total: seq<byte>) {
    && i <= |text| && a <= |args| && Scan(text[i..]) == Some(rest) && Match(rest.pieces, args[a..])
    && out + Render(rest.pieces, args[a..]) == total
  }

  lemma LiteralNext(text: seq<byte>, args: seq<Arg>, i: nat, a: nat, rest: Scanned, out: seq<byte>, total: seq<byte>)
    requires Formatting(text, args, i, a, rest, out, total) && i < |text| && text[i] != 0 && text[i] != PERCENT
    ensures rest.pieces != [] && rest.stop > 0 && |out| + 1 <= |total|
    ensures Formatting(text, args, i + 1, a, Scanned(rest.pieces[1..], rest.stop - 1), out + [text[i]], total)
  {
    assert text[i..][1..] == text[i + 1..];
    assert rest.pieces[0] == Literal(text[i]);
    var more := Render(rest.pieces[1..], args[a..]);
    assert out + ([text[i]] + more) == out + [text[i]] + more;
  }

  /** Where the loop ends: at the NUL, or behind a '%' that is the last character before it. */
  lemma LoopEnds(text: seq<byte>, args: seq<Arg>, i: nat, a: nat, rest: Scanned, out: seq<byte>, total: seq<byte>)
    requires Formatting(text, args, i, a, rest, out, total) && i < |text|
    ensures text[i] == 0 ==> out == total && rest == Scanned([], 0)
    ensures text[i] == PERCENT ==> i + 1 < |text| && (text[i + 1] == 0 ==> out == total && rest == Scanned([], 1))
  {
    assert text[i..][0] == text[i];
  }

  lemma DirectiveHere(text: seq<byte>, args: seq<Arg>, i: nat, a: nat, rest: Scanned, out: seq<byte>,
                      total: seq<byte>)
    requires Formatting(text, args, i, a, rest, out, total)
    requires i + 1 < |text| && text[i] == PERCENT && text[i + 1] != 0
    ensures Parse(text[i + 1..]).Some? && rest.pieces != [] && rest.pieces[0] == Parse(text[i + 1..]).value.0
    ensures var after := Parse(text[i + 1..]).value.1;
            && |after| < |text| - i && rest.stop >= |text| - i - |after|
            && Scan(after) == Some(Scanned(rest.pieces[1..], rest.stop - (|text| - i - |after|)))
    ensures Needs(rest.pieces[0]) == 1 ==> a < |args|
    ensures TakesWord(rest.pieces[0]) ==> args[a].Word?
    ensures TakesText(rest.pieces[0]) ==> args[a].Text?
  {
    hide Parse;
    assert text[i..][1..] == text[i + 1..];
  }

  lemma RenderNext(pieces: seq<Piece>, args: seq<Arg>, arg: Option<Arg>)
    requires pieces != [] && Match(pieces, args)
    requires if Needs(pieces[0]) == 1 then args != [] && arg == Some(args[0]) else arg == None
    ensures Needs(pieces[0]) <= |args| && Match(pieces[1..], args[Needs(pieces[0])..])
    ensures TakesWord(pieces[0]) ==> arg.value.Word?
    ensures TakesText(pieces[0]) ==> arg.value.Text?
    ensures Render(pieces, args) == Print(pieces[0], arg) + Render(pieces[1..], args[Needs(pieces[0])..])
  {
    hide Print;
    assert args[0..] == args;
  }

  lemma DirectiveNext(text: seq<byte>, args: seq<Arg>, i: nat, a: nat, rest: Scanned, out: seq<byte>,
                      total: seq<byte>, j: nat, arg: Option<Arg>)
    requires Formatting(text, args, i, a, rest, out, total) && rest.pieces != [] && j <= |text| && rest.stop >= j - i
    requires Scan(text[j..]) == Some(Scanned(rest.pieces[1..], rest.stop - (j - i)))
    requires if Needs(rest.pieces[0]) == 1 then a < |args| && arg == Some(args[a]) else arg == None
    ensures TakesWord(rest.pieces[0]) ==> arg.value.Word?
    ensures TakesText(rest.pieces[0]) ==> arg.value.Text?
    ensures var p, rest' := rest.pieces[0], Scanned(rest.pieces[1..], rest.stop - (j - i));
            && |out| + |Print(p, arg)| <= |total|
            && Formatting(text, args, j, a + Needs(p), rest', out + Print(p, arg), total)
  {
    hide Scan, Print, Match, Render, Needs, TakesWord, TakesText;
    RenderHere(args, a, rest.pieces, arg);
    Advance(text, args, i, a, rest, out, total, j, Needs(rest.pieces[0]), Print(rest.pieces[0], arg));
  }

  lemma RenderHere(args: seq<Arg>, a: nat, pieces: seq<Piece>, arg: Option<Arg>)
    requires a <= |args| && pieces != [] && Match(pieces, args[a..])
    requires if Needs(pieces[0]) == 1 then a < |args| && arg == Some(args[a]) else arg == None
    ensures TakesWord(pieces[0]) ==> arg.value.Word?
    ensures TakesText(pieces[0]) ==> arg.value.Text?
    ensures a + Needs(pieces[0]) <= |args| && Match(pieces[1..], args[a + Needs(pieces[0])..])
    ensures Render(pieces, args[a..]) == Print(pieces[0], arg) + Render(pieces[1..], args[a + Needs(pieces[0])..])
  {
    hide Print, Match, Render, Needs, TakesWord, TakesText;
    RenderNext(pieces, args[a..], arg);
    DropDrop(args, a, Needs(pieces[0]));
  }

  lemma Advance(text: seq<byte>, args: seq<Arg>, i: nat, a: nat, rest: Scanned, out: seq<byte>, total: seq<byte>,
                j: nat, n: nat, shown: seq<byte>)
    requires Formatting(text, args, i, a, rest, out, total) && rest.pieces != []
    requires j <= |text| && rest.stop >= j - i
             && Scan(text[j..]) == Some(Scanned(rest.pieces[1..], rest.stop - (j - i)))
    requires a + n <= |args| && Match(rest.pieces[1..], args[a + n..])
    requires Render(rest.pieces, args[a..]) == shown + Render(rest.pieces[1..], args[a + n..])
    ensures |out| + |shown| <= |total|
    ensures Formatting(text, args, j, a + n, Scanned(rest.pieces[1..], rest.stop - (j - i)), out + shown, total)
  {
    hide Scan, Match, Render;
    Regroup(out, shown, Render(rest.pieces[1..], args[a + n..]));
  }

  lemma DropDrop(args: seq<Arg>, a: nat, n: nat)
    requires a + n <= |args|
    ensures args[a..][n..] == args[a + n..]
  {
  }

  lemma Regroup(x: seq<byte>, y: seq<byte>, z: seq<byte>)
    ensures x + (y + z) == x + y + z
  {
  }

  /** VFORMAT_BODY with EMIT_UNBOUNDED over the memory from the format on: everything the scan of
      that memory stands for is emitted, count is its length as an int, and `end` is the last
      byte read. */
  method VFormat(buf: array<byte>, text: seq<byte>, args: seq<Arg>)
    returns (count: s32, pos: word, end: nat)
    requires Scan(text).Some? && Match(Scan(text).value.pieces, args)
    requires var total := Render(Scan(text).value.pieces, args); |total| < W32 && |total| <= buf.Length
    modifies buf
    ensures var total := Render(Scan(text).value.pieces, args);
            Shows(old(buf[..]), buf[..], buf.Length, total) && count == Int32(|total|) && pos == |total|
    ensures end == Scan(text).value.stop
  {
    hide Shows, Scan, Match, Render, Print, Formatting, Parse, Int32;
    ghost var before := buf[..];
    ghost var rest, out := Scan(text).value, [];
    ghost var total := Render(rest.pieces, args);
    var i: nat, a: nat := 0, 0;
    count, pos := 0, 0;
    Starts(text, args, rest, total, before, buf.Length);
    ScanEndsAtNul(text);
    LoopEnds(text, args, i, a, rest, out, total);
    while text[i] != 0
      invariant i < |text| && Formatting(text, args, i, a, rest, out, total) && i + rest.stop == Scan(text).value.stop
      invariant Shows(before, buf[..], buf.Length, out) && pos == |out| && count == Int32(|out|)
      decreases |text| - i
    {
      LoopEnds(text, args, i, a, rest, out, total);
      if text[i] != PERCENT {
        LiteralNext(text, args, i, a, rest, out, total);
        pos := Emit(buf, false, buf.Length, text[i], pos, before, out);
        CountOn(|out|, 1);
        count := Int32(count + 1);
        out, rest := out + [text[i]], Scanned(rest.pieces[1..], rest.stop - 1);
        i := i + 1;
        continue;
      }
      i := i + 1;
      if text[i] == 0 {
        return count, pos, i;
      }
      DirectiveHere(text, args, i - 1, a, rest, out, total);
      var p, j := ParseDirective(text, i);
      var arg := if Needs(p) == 1 then Some(args[a]) else None;
      DirectiveNext(text, args, i - 1, a, rest, out, total, j, arg);
      var more: s32;
      pos, more := EmitDirective(buf, false, buf.Length, p, arg, pos, before, out);
      CountOn(|out|, |Print(p, arg)|);
      count := Int32(count + more);
      out, rest := out + Print(p, arg), Scanned(rest.pieces[1..], rest.stop - (j - (i - 1)));
      a := a + Needs(p);
      i := j;
    }
    LoopEnds(text, args, i, a, rest, out, total);
    end := i;
  }

  /** The emission of one directive, and what it adds to count. */
  method EmitDirective(buf: array<byte>, bounded: bool, limit: nat, p: Piece, arg: Option<Arg>, pos: word,
                       ghost before: seq<byte>, ghost out: seq<byte>) returns (next: word, more: s32)
    requires p.Directive? && (Needs(p) == 1 ==> arg.Some?)
    requires (TakesWord(p) ==> arg.value.Word?) && (TakesText(p) ==> arg.value.Text?)
    requires limit <= buf.Length && (bounded || |out| + |Print(p, arg)| <= limit)
    requires pos == |out| && |out| + |Print(p, arg)| < W32 && Shows(before, buf[..], limit, out)
    modifies buf
    ensures Shows(before, buf[..], limit, out + Print(p, arg)) && next == |out| + |Print(p, arg)|
    ensures more == Int32(|Print(p, arg)|)
  {
    hide Shows, Padded, Int32;
    if Known(p.conv) {
      var sign, body := Convert(p, arg);
      var pad := Int32(p.width - (|sign| + |body|));
      next := EmitField(buf, bounded, limit, p.left, p.zero, pad, sign, body, pos, before, out);
      PaddedLength(p.left, p.zero, pad, sign, body);
      more := Int32(|sign| + |body| + if pad < 0 then 0 else pad);
    } else {
      next := Emit(buf, bounded, limit, PERCENT, pos, before, out);
      next := Emit(buf, bounded, limit, p.conv, next, before, out + [PERCENT]);
      assert out + [PERCENT] + [p.conv] == out + [PERCENT, p.conv];
      more := Int32(2);
    }
  }

  lemma PaddedLength(left: bool, zero: bool, pad: int, sign: seq<byte>, body: seq<byte>)
    ensures |Padded(left, zero, pad, sign, body)| == |sign| + |body| + if pad < 0 then 0 else pad
  {
  }

  lemma CountOn(n: nat, k: nat)
    ensures Int32(Int32(n) + k) == Int32(n + k) && Int32(Int32(n) + Int32(k)) == Int32(n + k)
  {
    WrapSum(n, k);
    WrapSum(k, Int32(n));
    hide Int32;
    assert n + k == k + n;
  }

  lemma WrapSum(x: int, k: int)
    ensures Int32(Int32(x) + k) == Int32(x + k)
  {
  }

  lemma Starts(text: seq<byte>, args: seq<Arg>, rest: Scanned, total: seq<byte>, before: seq<byte>, limit: nat)
    requires Scan(text) == Some(rest) && Match(rest.pieces, args) && total == Render(rest.pieces, args)
    ensures Formatting(text, args, 0, 0, rest, [], total) && Shows(before, before, limit, []) && Int32(0) == 0
  {
    assert text[0..] == text && args[0..] == args && [] + total == total;
  }

  // The entry points.

  /** sprintf: the whole output and a NUL. */
  method Sprintf(buf: array<byte>, text: seq<byte>, args: seq<Arg>) returns (count: s32)
    requires Scan(text).Some? && Match(Scan(text).value.pieces, args)
    requires |Render(Scan(text).value.pieces, args)| < buf.Length <= W32
    modifies buf
    ensures var out := Render(Scan(text).value.pieces, args);
            count == Int32(|out|) && buf[..] == out + [0] + old(buf[..])[|out| + 1..]
  {
    hide Render, Match, Scan;
    var pos, end;
    ghost var before := buf[..];
    count, pos, end := VFormat(buf, text, args);
    buf[pos] := 0;
    ghost var out := Render(Scan(text).value.pieces, args);
    assert forall k :: 0 <= k < buf.Length ==> buf[k] == (out + [0] + before[|out| + 1..])[k];
  }
}
