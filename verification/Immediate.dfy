/** Runs of im instructions: the encoders of sim/assembler.py and linker/zpld.py, the word a
    run denotes, and what the machine does with it. */
module Immediate {
  import opened Words
  import opened Memory
  import opened Powers
  import opened ZpuMachine

  /** Seven-bit groups of v in two's complement, most significant first, none redundant. */
  function Chunks(v: int): (c: seq<nat>)
    ensures |c| >= 1 && forall i :: 0 <= i < |c| ==> c[i] < 128
    decreases if v < 0 then -v else v
  {
    if -64 <= v < 64 then [v % 128] else Chunks(v / 128) + [v % 128]
  }

  function ImBytes(c: seq<nat>): (b: seq<byte>)
    requires forall i :: 0 <= i < |c| ==> c[i] < 128
    ensures |b| == |c|
  {
    seq(|c|, i requires 0 <= i < |c| => 0x80 + c[i])
  }

  /** _im_minimal of the assembler, and _im of the linker, which is the same loop. */
  method ImMinimal(value0: int) returns (bytes: seq<byte>)
    ensures bytes == ImBytes(Chunks(Int32(value0)))
  {
    hide Chunks, Reversed;
    var v: int := Wrap(value0);
    if v >= 0x8000_0000 {
      v := v - 0x1_0000_0000;
    }
    var chunks: seq<nat> := [];
    ghost var start := v;
    ReversedNone(Chunks(v));
    while true
      invariant forall i :: 0 <= i < |chunks| ==> chunks[i] < 128
      invariant Chunks(start) == Chunks(v) + Reversed(chunks)
      decreases if v < 0 then -v else v
    {
      var chunk := v % 128;
      ghost var before := v;
      v := v / 128;
      ChunkOff(before);
      ReversedAppend(chunks, chunk);
      ghost var later := Reversed(chunks);
      chunks := chunks + [chunk];
      if (v == 0 && chunk < 64) || (v == -1 && chunk >= 64) {
        break;
      }
      assert Chunks(v) + [chunk] + later == Chunks(v) + ([chunk] + later);
    }
    assert Chunks(start) == Reversed(chunks);
    bytes := ImBytes(Reversed(chunks));
  }

  /** One round: the low group is the only one, or goes behind those of the rest. */
  lemma ChunkOff(v: int)
    ensures var rest, chunk := v / 128, v % 128;
            if (rest == 0 && chunk < 64) || (rest == -1 && chunk >= 64) then Chunks(v) == [chunk]
            else Chunks(v) == Chunks(rest) + [chunk] && (if rest < 0 then -rest else rest) < if v < 0 then -v else v
  {
  }

  function Reversed(s: seq<nat>): (r: seq<nat>)
    ensures |r| == |s| && forall i :: 0 <= i < |s| ==> r[i] == s[|s| - 1 - i]
  {
    seq(|s|, i requires 0 <= i < |s| => s[|s| - 1 - i])
  }

  lemma ReversedNone(s: seq<nat>)
    ensures s + Reversed([]) == s
  {
  }

  lemma ReversedAppend(s: seq<nat>, x: nat)
    ensures Reversed(s + [x]) == [x] + Reversed(s)
  {
  }

  /** _im_fixed: `count` bytes regardless of the value. */
  function ImFixed(value: int, count: nat): (b: seq<byte>)
    ensures |b| == count
  {
    seq(count, i requires 0 <= i < count => 0x80 + Wrap(value) / Pow2(7 * (count - 1 - i)) % 128)
  }

  ghost predicate IsImRun(b: seq<byte>) {
    |b| >= 1 && forall i :: 0 <= i < |b| ==> b[i] >= 0x80
  }

  /** The word a run denotes: the first byte is sign-extended, each later one is shifted in. */
  ghost function RunValue(b: seq<byte>): word
    requires IsImRun(b)
  {
    if |b| == 1 then SignExtend(b[0] - 0x80)
    else Wrap((RunValue(b[..|b| - 1]) as int) * 128 + (b[|b| - 1] - 0x80))
  }

  /** The same value before it is cut to 32 bits. */
  ghost function LongValue(b: seq<byte>): int
    requires IsImRun(b)
  {
    if |b| == 1 then (if b[0] >= 0xc0 then b[0] - 0x100 else b[0] - 0x80)
    else LongValue(b[..|b| - 1]) * 128 + (b[|b| - 1] - 0x80)
  }

  lemma {:induction false} RunIsLong(b: seq<byte>)
    requires IsImRun(b)
    ensures RunValue(b) == Wrap(LongValue(b))
  {
    if |b| > 1 {
      var p := b[..|b| - 1];
      RunIsLong(p);
      WrapShift(LongValue(p), b[|b| - 1] - 0x80);
    }
  }

  lemma WrapShift(v: int, c: int)
    ensures Wrap(Wrap(v) * 128 + c) == Wrap(v * 128 + c)
  {
    var q := v / 0x1_0000_0000;
    assert v == q * 0x1_0000_0000 + Wrap(v);
    WrapAdd(Wrap(v) * 128 + c, q * 128);
  }

  lemma WrapAdd(x: int, q: int)
    ensures Wrap(x + q * 0x1_0000_0000) == Wrap(x)
  {
  }

  /** k bytes reach exactly the 7k-bit signed numbers. */
  ghost function Reach(k: nat): int
    requires k >= 1
  {
    if k == 1 then 64 else 128 * Reach(k - 1)
  }

  lemma {:induction false} LongRange(b: seq<byte>)
    requires IsImRun(b)
    ensures -Reach(|b|) <= LongValue(b) < Reach(|b|)
  {
    if |b| > 1 {
      LongRange(b[..|b| - 1]);
    }
  }

  lemma {:induction false} ChunksFit(v: int, k: nat)
    requires k >= 1 && -Reach(k) <= v < Reach(k)
    ensures |Chunks(v)| <= k
    decreases k
  {
    if k > 1 && !(-64 <= v < 64) {
      ChunksFit(v / 128, k - 1);
    }
  }

  lemma {:induction false} ChunksDecode(v: int)
    ensures IsImRun(ImBytes(Chunks(v))) && LongValue(ImBytes(Chunks(v))) == v
    decreases if v < 0 then -v else v
  {
    var c := Chunks(v);
    var b := ImBytes(c);
    if !(-64 <= v < 64) {
      ChunksDecode(v / 128);
      assert c == Chunks(v / 128) + [v % 128];
      assert b[..|b| - 1] == ImBytes(Chunks(v / 128));
    }
  }

  lemma ReachSmall()
    ensures Reach(1) == 64 && Reach(4) == 0x800_0000 && Reach(5) == 0x4_0000_0000
    ensures Reach(2) == 0x2000 && Reach(3) == 0x10_0000
  {
  }

  /** The minimal run denotes its value and has at most five bytes. */
  lemma MinimalRunDenotes(value: int)
    ensures var run := ImBytes(Chunks(Int32(value)));
            IsImRun(run) && RunValue(run) == Wrap(value) && |run| <= 5
  {
    hide RunValue, LongValue, ImBytes, Chunks;
    var v := Int32(value);
    ChunksDecode(v);
    RunIsLong(ImBytes(Chunks(v)));
    SignedWraps(value);
    ReachSmall();
    ChunksFit(v, 5);
  }

  lemma SignedWraps(value: int)
    ensures Wrap(Int32(value)) == Wrap(value)
    ensures -0x8000_0000 <= Int32(value) < 0x8000_0000
  {
    WrapAdd(Wrap(value), -1);
  }

  /** Numbers in the signed 32-bit range are told apart by their low 32 bits. */
  lemma SignedUnique(v: int, w: int)
    requires Wrap(v) == Wrap(w)
    requires -0x8000_0000 <= v < 0x8000_0000 && -0x8000_0000 <= w < 0x8000_0000
    ensures v == w
  {
  }

  /** No nonempty run that denotes the value is shorter than the minimal one. */
  lemma MinimalRunIsShortest(value: int, b: seq<byte>)
    requires IsImRun(b) && RunValue(b) == Wrap(value)
    ensures |ImBytes(Chunks(Int32(value)))| <= |b|
  {
    hide RunValue, LongValue, Chunks;
    if |b| >= 5 {
      MinimalRunDenotes(value);
    } else {
      RunIsLong(b);
      LongRange(b);
      ReachUpTo4(|b|);
      SignedWraps(value);
      SignedUnique(LongValue(b), Int32(value));
      ChunksFit(Int32(value), |b|);
    }
  }

  lemma ReachUpTo4(k: nat)
    requires 1 <= k <= 4
    ensures Reach(k) <= 0x800_0000
  {
    ReachSmall();
  }

  lemma LongExtend(p: seq<byte>, c: byte)
    requires IsImRun(p) && c >= 0x80
    ensures IsImRun(p + [c]) && LongValue(p + [c]) == LongValue(p) * 128 + (c - 0x80)
  {
    assert (p + [c])[..|p|] == p;
  }

  /** The fixed five-byte form denotes the same word. */
  lemma FixedRun(value: int)
    ensures IsImRun(ImFixed(value, 5)) && RunValue(ImFixed(value, 5)) == Wrap(value)
  {
    hide LongValue, RunValue, Pow2;
    var w, b := Wrap(value), ImFixed(value, 5);
    Powers7();
    assert b == [b[0]] + [b[1]] + [b[2]] + [b[3]] + [b[4]];
    SevenBitFields(w, b[0] - 0x80, b[1] - 0x80, b[2] - 0x80, b[3] - 0x80, b[4] - 0x80);
    LongSingle(b[0]);
    LongExtend([b[0]], b[1]);
    LongExtend([b[0]] + [b[1]], b[2]);
    LongExtend([b[0]] + [b[1]] + [b[2]], b[3]);
    LongExtend([b[0]] + [b[1]] + [b[2]] + [b[3]], b[4]);
    RunIsLong(b);
  }

  lemma LongSingle(c: byte)
    requires c >= 0x80
    ensures LongValue([c]) == if c >= 0xc0 then c - 0x100 else c - 0x80
  {
  }

  lemma SevenBitFields(w: word, c0: int, c1: int, c2: int, c3: int, c4: int)
    requires c0 == w / 0x1000_0000 % 128 && c1 == w / 0x20_0000 % 128 && c2 == w / 0x4000 % 128
    requires c3 == w / 0x80 % 128 && c4 == w % 128
    ensures c0 < 16 && (((c0 * 128 + c1) * 128 + c2) * 128 + c3) * 128 + c4 == w
  {
    NestedShifts(w);
    TopField(w);
    Septets(w / 0x1000_0000, w / 0x20_0000, w / 0x4000, w / 0x80, w, c1, c2, c3, c4);
  }

  lemma TopField(w: word)
    ensures w / 0x1000_0000 < 16 && w / 0x1000_0000 % 128 == w / 0x1000_0000
  {
  }

  lemma Septets(x0: int, x1: int, x2: int, x3: int, x4: int, c1: int, c2: int, c3: int, c4: int)
    requires x1 == x0 * 128 + c1 && x2 == x1 * 128 + c2 && x3 == x2 * 128 + c3 && x4 == x3 * 128 + c4
    ensures (((x0 * 128 + c1) * 128 + c2) * 128 + c3) * 128 + c4 == x4
  {
  }

  lemma NestedShifts(v: int)
    ensures v / 0x20_0000 == v / 0x1000_0000 * 128 + v / 0x20_0000 % 128
    ensures v / 0x4000 == v / 0x20_0000 * 128 + v / 0x4000 % 128
    ensures v / 0x80 == v / 0x4000 * 128 + v / 0x80 % 128
  {
    NestedShift(v, 0x80, 0x4000);
    NestedShift(v, 0x4000, 0x20_0000);
    NestedShift(v, 0x20_0000, 0x1000_0000);
  }

  lemma NestedShift(v: int, d: int, e: int)
    requires d > 0 && e == 128 * d
    ensures v / d == v / e * 128 + v / d % 128
  {
    var q, r := v / d, v % d;
    var q1, r1 := q / 128, q % 128;
    assert v == q * d + r;
    assert q * d == q1 * (128 * d) + r1 * d;
    MulLe(r1, 127, d);
    MulLe(0, r1, d);
    DivUnique(v / e, v % e, q1, r1 * d + r, e);
  }

  lemma Powers7()
    ensures Pow2(0) == 1 && Pow2(7) == 0x80 && Pow2(14) == 0x4000 && Pow2(21) == 0x20_0000 && Pow2(28) == 0x1000_0000
  {
    Pow2Small();
    Pow2Add(7, 7);
    Pow2Add(14, 7);
    Pow2Add(14, 14);
  }

  ghost predicate CodeAt(mem: seq<byte>, a: int, b: seq<byte>) {
    0 <= a && a + |b| <= |mem| && forall i :: 0 <= i < |b| ==> mem[a + i] == b[i]
  }

  /** The four bytes a push would write lie outside [lo, hi). */
  ghost predicate PushAvoids(s: State, lo: int, hi: int) {
    Align(s.sp - 4) + 4 <= lo || hi <= Align(s.sp - 4)
  }

  /** Continuing a run rewrites the word that the run has pushed so far. */
  lemma ChainStep(s: State, v: word, pc: nat, c: byte)
    requires Push(s, v).Some? && c >= 0x80
    requires pc < |s.mem| && Push(s, v).value.mem[pc] == c
    ensures var w := Wrap((v as int) * 128 + (c - 0x80));
            && Push(s, w).Some?
            && Step(Push(s, v).value.(pc := pc, prevIm := true))
               == Some(Push(s, w).value.(pc := pc + 1, prevIm := true))
  {
    hide Store, WordAt;
    var a := Align(s.sp - 4);
    StoreLoad(s.mem, a, v);
    StoreTwice(s.mem, a, v, Wrap((v as int) * 128 + (c - 0x80)));
  }

  lemma FirstStep(s: State, c: byte)
    requires c >= 0x80 && !s.prevIm && Push(s, 0).Some? && s.pc < |s.mem| && s.mem[s.pc] == c
    ensures var w := SignExtend(c - 0x80);
            Push(s, w).Some? && Step(s) == Some(Push(s, w).value.(pc := s.pc + 1, prevIm := true))
  {
    hide Store, WordAt;
    assert s == s.(prevIm := false);
  }

  /** A whole run, entered fresh, is one push of its word. */
  lemma {:induction false} RunIm(s: State, b: seq<byte>)
    requires IsImRun(b) && !s.prevIm && CodeAt(s.mem, s.pc, b)
    requires Push(s, 0).Some? && PushAvoids(s, s.pc, s.pc + |b|)
    ensures Push(s, RunValue(b)).Some?
    ensures Iterate(s, |b|) == Some(Push(s, RunValue(b)).value.(pc := s.pc + |b|, prevIm := true))
    decreases |b|
  {
    hide Store, WordAt, Iterate, Step, SignExtend;
    var n := |b| - 1;
    assert s.mem[s.pc + n] == b[n];
    if n == 0 {
      FirstStep(s, b[0]);
      IterateOne(s);
    } else {
      var p := b[..n];
      RunIm(s, p);
      IterateAdd(s, n, 1);
      StoreLoad(s.mem, Align(s.sp - 4), RunValue(p));
      ChainStep(s, RunValue(p), s.pc + n, b[n]);
      IterateOne(Push(s, RunValue(p)).value.(pc := s.pc + n, prevIm := true));
    }
  }

  lemma StoreKeepsCode(mem: seq<byte>, a: int, w: word, code: seq<byte>)
    requires CodeAt(mem, 0, code) && |code| <= a && a + 4 <= |mem|
    ensures CodeAt(Store(mem, a, w), 0, code)
  {
  }

  lemma IterateOne(s: State)
    ensures Iterate(s, 1) == Step(s)
  {
    hide Step;
    if Step(s).Some? {
      assert Iterate(Step(s).value, 0) == Step(s);
    }
  }
}
