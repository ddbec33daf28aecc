/** The entry trampoline of linker/zpld.py: code whose length depends on the address it
    loads, which depends on its length. */
module Trampoline {
  import opened Words
  import opened Memory
  import opened ZpuMachine
  import opened Immediate

  function Im(v: int): (b: seq<byte>)
    ensures 1 <= |b| <= 5 && IsImRun(b) && RunValue(b) == Wrap(v)
  {
    MinimalRunDenotes(v);
    ImBytes(Chunks(Int32(v)))
  }

  /** Bytes before padding, for an assumed total length. */
  function Unpadded(entry: nat, length: nat): nat { 6 + |Im(entry + length)| }

  function RoundUp4(n: nat): nat { (n + 3) / 4 * 4 }

  function Total(entry: nat, length: nat): (n: nat)
    ensures n == 8 || n == 12
  {
    RoundUp4(Unpadded(entry, length))
  }

  /** The offset of the breakpoint: the last byte before the padding. */
  function ReturnOffset(entry: nat, length: nat): nat { Unpadded(entry, length) - 1 }

  function Attempt(entry: nat, length: nat, ret: nat): seq<byte> {
    Im(0) + [0x0b] + Im(ret) + [0x0b] + Im(entry + length) + [0x2d, 0x00]
  }

  function Nops(n: nat): seq<byte> { seq(n, i => 0x0b) }

  function Code(entry: nat, length: nat): seq<byte> {
    Attempt(entry, length, ReturnOffset(entry, length)) + Nops(Total(entry, length) - Unpadded(entry, length))
  }

  lemma SmallIm(v: nat)
    requires v < 64
    ensures |Im(v)| == 1
  {
  }

  lemma AttemptLength(entry: nat, length: nat, ret: nat)
    requires ret < 64
    ensures |Attempt(entry, length, ret)| == Unpadded(entry, length)
    ensures |Code(entry, length)| == Total(entry, length)
  {
    hide Im;
    SmallIm(0);
    SmallIm(ret);
    SmallIm(ReturnOffset(entry, length));
  }

  lemma CodeLength(entry: nat, length: nat)
    ensures |Code(entry, length)| == Total(entry, length) && ReturnOffset(entry, length) < Total(entry, length)
  {
    hide Im;
    AttemptLength(entry, length, ReturnOffset(entry, length));
  }

  /** The inner loop: the return offset settles on the second round, at the body's last byte. */
  method SolveReturn(entry: nat, length: nat) returns (body: seq<byte>)
    ensures body == Attempt(entry, length, ReturnOffset(entry, length))
    ensures |body| - 1 == ReturnOffset(entry, length)
  {
    hide Im, Attempt;
    var ret := 0;
    body := [];
    for i := 0 to 20
      invariant i <= 1
      invariant ret == if i == 0 then 0 else ReturnOffset(entry, length)
    {
      AttemptLength(entry, length, ret);
      body := Attempt(entry, length, ret);
      if |body| - 1 == ret {
        return;
      }
      ret := |body| - 1;
    }
  }

  /** Two bytes hold the addresses within 8K of zero, on either side. */
  lemma ShortIm(v: int)
    ensures |Im(v)| <= 2 <==> -0x2000 <= Int32(v) < 0x2000
  {
    hide RunValue;
    TwoChunks(Int32(v));
  }

  lemma TwoChunks(v: int)
    ensures |Chunks(v)| <= 2 <==> -0x2000 <= v < 0x2000
  {
    if !(-64 <= v < 64) {
      assert |Chunks(v)| == |Chunks(v / 128)| + 1;
      assert -64 <= v / 128 < 64 <==> -0x2000 <= v < 0x2000;
    }
  }

  lemma ShortTotal(entry: nat, length: nat)
    ensures Total(entry, length) == 8 <==> -0x2000 <= Int32(entry + length) < 0x2000
  {
    ShortIm(entry + length);
    hide Im, Int32;
  }

  /** The four addresses at which neither length will do: 12 bytes further the address fits
      in two im bytes, 8 bytes further it does not. */
  predicate Oscillates(entry: nat) { 0xffff_e000 <= Wrap(entry + 12) <= 0xffff_e003 }

  /** They are exactly the addresses for which no total length is consistent with itself:
      there each of the two possible lengths leads to the other. */
  lemma Converges(entry: nat)
    ensures Oscillates(entry) <==> forall n: nat :: Total(entry, n) != n
    ensures Oscillates(entry) <==> Total(entry, 8) == 12 && Total(entry, 12) == 8
  {
    ShortTotal(entry, 8);
    ShortTotal(entry, 12);
    WindowIs(entry);
    hide Total, Oscillates, Int32;
    if !(Total(entry, 8) == 12 && Total(entry, 12) == 8) {
      assert Total(entry, 8) == 8 || Total(entry, 12) == 12;
    }
  }

  lemma WindowIs(entry: nat)
    ensures Oscillates(entry) <==> -0x2000 <= Int32(entry + 12) < 0x2000 && !(-0x2000 <= Int32(entry + 8) < 0x2000)
  {
    WrapAdd4(entry + 8);
    SignedWindow(entry + 8);
    SignedWindow(entry + 12);
    hide Wrap, Int32;
  }

  lemma WrapAdd4(v: int)
    ensures Wrap(v + 4) == if Wrap(v) < 0xffff_fffc then Wrap(v) + 4 else Wrap(v) - 0xffff_fffc
  {
  }

  lemma SignedWindow(v: int)
    ensures -0x2000 <= Int32(v) < 0x2000 <==> Wrap(v) < 0x2000 || Wrap(v) >= 0xffff_e000
  {
  }

  /** The length the iteration settles on, starting from 4. */
  function Settled(entry: nat): (n: nat)
    ensures n == 8 || n == 12
    ensures !Oscillates(entry) ==> Total(entry, n) == n
  {
    Converges(entry);
    var first := Total(entry, 4);
    if Total(entry, first) == first then first else 20 - first
  }

  lemma WrapSmall(v: nat)
    requires v < 0x1_0000_0000
    ensures Wrap(v) == v
  {
  }

  lemma FarEntry(entry: nat)
    requires 0x2000 <= entry < 0x7fff_fff0
    ensures !Oscillates(entry) && Settled(entry) == 12
  {
    hide Total, Settled, Int32;
    ShortTotal(entry, 4);
    ShortTotal(entry, 12);
    WrapSmall(entry + 4);
    WrapSmall(entry + 12);
    hide Wrap;
    SignedWindow(entry + 4);
    SignedWindow(entry + 12);
    SettledIs(entry);
  }

  /** _entry_trampoline: the iteration fails exactly when it oscillates, and otherwise
      its result is consistent with its own length. */
  method EntryTrampoline(entry: nat) returns (r: Option<seq<byte>>)
    ensures r.None? <==> Oscillates(entry)
    ensures r.Some? ==> r.value == Code(entry, Settled(entry)) && |r.value| == Settled(entry)
  {
    hide Im, Attempt, Oscillates, Settled;
    Converges(entry);
    SettledIs(entry);
    var length := 4;
    for i := 0 to 20
      invariant if i == 0 then length == 4 else length == 8 || length == 12
      invariant i == 1 ==> length == Total(entry, 4)
      invariant i == 2 ==> length == 20 - Total(entry, 4)
      invariant i > 0 && i <= 2 && length != Settled(entry) ==> Total(entry, length) != length
      invariant !Oscillates(entry) ==> i <= 2 && (i == 2 ==> length == Settled(entry))
    {
      var body := SolveReturn(entry, length);
      AttemptLength(entry, length, ReturnOffset(entry, length));
      var unpadded := |body|;
      var padded := RoundUp4(unpadded);
      body := body + Nops(padded - unpadded);
      if padded == length {
        return Some(body);
      }
      length := padded;
    }
    r := None;
  }

  lemma SettledIs(entry: nat)
    ensures Settled(entry) == if Total(entry, Total(entry, 4)) == Total(entry, 4) then Total(entry, 4) else 20 - Total(entry, 4)
  {
  }

  /** One of the four: this entry is 3 bytes long at length 8 and 2 bytes long at length 12. */
  lemma Diverges()
    ensures var e := 0x1_0000_0000 - 0x2000 - 12;
            Total(e, 8) == 12 && Total(e, 12) == 8 && |Im(e + 8)| == 3 && |Im(e + 12)| == 2
  {
    var e := 0x1_0000_0000 - 0x2000 - 12;
    assert Int32(e + 8) == -0x2004 && Int32(e + 12) == -0x2000;
    assert |Chunks(-0x2000)| == 2;
    assert |Chunks(-0x2004)| == 3;
  }

  ghost predicate Beneath(s: State, hi: int) { hi <= Align(s.sp - 4) && Align(s.sp - 4) + 4 <= |s.mem| }

  /** im v, then the byte op: all but the last step push v. */
  lemma ImThen(s: State, v: int, hi: int, op: byte) returns (t: State)
    requires !s.prevIm && CodeAt(s.mem, s.pc, Im(v) + [op])
    requires s.pc + |Im(v)| + 1 <= hi && Beneath(s, hi)
    ensures Push(s, 0).Some? && Push(s, Wrap(v)).Some?
    ensures t == Push(s, Wrap(v)).value.(pc := s.pc + |Im(v)|, prevIm := true)
    ensures t.pc < |t.mem| && t.mem[t.pc] == op && Iterate(s, |Im(v)| + 1) == Step(t)
  {
    hide Iterate, Im, Store, WordAt, Step, CodeAt, RunValue, IsImRun;
    var b := Im(v);
    CodeParts(s.mem, s.pc, b, [op]);
    CodeFirst(s.mem, s.pc + |b|, [op]);
    RunIm(s, b);
    t := Push(s, Wrap(v)).value.(pc := s.pc + |b|, prevIm := true);
    IterateAdd(s, |b|, 1);
    IterateOne(t);
    StoreKeeps(s.mem, Align(s.sp - 4), Wrap(v), s.pc + |b|);
  }

  /** im v; nop -- one push, with the machine ready for a fresh im. */
  lemma PushNop(s: State, v: int, hi: int)
    requires !s.prevIm && CodeAt(s.mem, s.pc, Im(v) + [0x0b])
    requires s.pc + |Im(v)| + 1 <= hi && Beneath(s, hi)
    ensures Push(s, Wrap(v)).Some?
    ensures Iterate(s, |Im(v)| + 1) == Some(Push(s, Wrap(v)).value.(pc := s.pc + |Im(v)| + 1, prevIm := false))
  {
    hide Iterate, Im, Push, Step, CodeAt;
    var t := ImThen(s, v, hi, 0x0b);
    NopStep(t);
  }

  lemma NopStep(t: State)
    requires t.pc < |t.mem| && t.mem[t.pc] == 0x0b
    ensures Step(t) == Some(t.(pc := t.pc + 1, prevIm := false))
  {
  }

  lemma StoreKeeps(mem: seq<byte>, a: int, w: word, i: int)
    requires 0 <= a && a + 4 <= |mem| && 0 <= i < a
    ensures Store(mem, a, w)[i] == mem[i]
  {
  }

  lemma CodeParts(mem: seq<byte>, a: int, b: seq<byte>, c: seq<byte>)
    requires CodeAt(mem, a, b + c)
    ensures CodeAt(mem, a, b) && CodeAt(mem, a + |b|, c)
  {
    forall i | 0 <= i < |b|
      ensures mem[a + i] == b[i]
    {
      assert (b + c)[i] == b[i];
    }
    forall i | 0 <= i < |c|
      ensures mem[a + |b| + i] == c[i]
    {
      assert (b + c)[|b| + i] == c[i];
    }
  }

  /** im v; call -- jump to v with the next address pushed. */
  lemma PushCall(s: State, v: int, hi: int)
    requires !s.prevIm && CodeAt(s.mem, s.pc, Im(v) + [0x2d])
    requires s.pc + |Im(v)| + 1 <= hi && Beneath(s, hi) && s.pc + |Im(v)| + 1 < 0x1_0000_0000
    ensures var ret := s.pc + |Im(v)| + 1;
            && Push(s, ret).Some?
            && Iterate(s, |Im(v)| + 1) == Some(Push(s, ret).value.(pc := Wrap(v), prevIm := false))
  {
    hide Iterate, Im, Push, Step, CodeAt;
    var t := ImThen(s, v, hi, 0x2d);
    CallStep(s, t, Wrap(v));
  }

  lemma CallStep(s: State, t: State, v: word)
    requires Push(s, 0).Some? && t == Push(s, v).value.(pc := t.pc, prevIm := true)
    requires t.pc < |t.mem| && t.mem[t.pc] == 0x2d && t.pc + 1 < 0x1_0000_0000
    ensures Push(s, t.pc + 1).Some?
    ensures Step(t) == Some(Push(s, t.pc + 1).value.(pc := v, prevIm := false))
  {
    hide Store, WordAt;
    var a := Align(s.sp - 4);
    StoreLoad(s.mem, a, v);
    StoreTwice(s.mem, a, v, t.pc + 1);
  }

  lemma StoreKeepsBelow(mem: seq<byte>, a: int, w: word, p: int, b: seq<byte>)
    requires CodeAt(mem, p, b) && p + |b| <= a && a + 4 <= |mem|
    ensures CodeAt(Store(mem, a, w), p, b)
  {
  }

  /** The state after pushing a word onto s. */
  function Pushed(s: State, w: word): State
    requires Push(s, w).Some?
  {
    Push(s, w).value
  }

  lemma PushKeepsBelow(s: State, w: word, p: int, b: seq<byte>)
    requires Push(s, 0).Some? && CodeAt(s.mem, p, b) && p + |b| <= Align(s.sp - 4)
    ensures Push(s, w).Some? && CodeAt(Pushed(s, w).mem, p, b)
  {
    hide Store, CodeAt;
    StoreKeepsBelow(s.mem, Align(s.sp - 4), w, p, b);
  }

  /** Three words pushed in a row read back, last one on top. */
  lemma ThreePushes(s: State, x: word, y: word, z: word)
    requires 0 <= Align(s.sp - 12) && Align(s.sp - 4) + 4 <= |s.mem|
    ensures Push(s, x).Some? && Push(Pushed(s, x), y).Some? && Push(Pushed(Pushed(s, x), y), z).Some?
    ensures var t := Pushed(Pushed(Pushed(s, x), y), z);
            && ReadWord(t.mem, t.sp) == Some(z) && ReadWord(t.mem, t.sp + 4) == Some(y)
            && ReadWord(t.mem, t.sp + 8) == Some(x) && |t.mem| == |s.mem|
            && forall i :: 0 <= i < |s.mem| && !(Align(s.sp - 12) <= i < Align(s.sp - 12) + 12) ==> t.mem[i] == s.mem[i]
  {
    hide WordAt, Store;
    var a := Align(s.sp - 12);
    var m1 := Store(s.mem, a + 8, x);
    var m2 := Store(m1, a + 4, y);
    StoreLoad(s.mem, a + 8, x);
    StoreLoad(m1, a + 4, y);
    StoreLoad(m2, a, z);
    StoreElsewhere(m1, a + 4, y, a + 8);
    StoreElsewhere(m2, a, z, a + 8);
    StoreElsewhere(m2, a, z, a + 4);
  }

  /** The three parts of the trampoline that execute, and the breakpoint behind them. */
  lemma CodeLayout(mem: seq<byte>, entry: nat, length: nat)
    requires CodeAt(mem, 0, Code(entry, length))
    ensures var ret := ReturnOffset(entry, length);
            && |Im(0)| == 1 && |Im(ret)| == 1 && ret == 5 + |Im(entry + length)| && ret < Total(entry, length) <= |mem|
            && CodeAt(mem, 0, Im(0) + [0x0b]) && CodeAt(mem, 2, Im(ret) + [0x0b])
            && CodeAt(mem, 4, Im(entry + length) + [0x2d]) && mem[ret] == 0x00
  {
    hide Im, CodeAt;
    var ret := ReturnOffset(entry, length);
    SmallIm(0);
    SmallIm(ret);
    AttemptLength(entry, length, ret);
    var A, B, C := Im(0) + [0x0b], Im(ret) + [0x0b], Im(entry + length) + [0x2d];
    var D := [0x00] + Nops(Total(entry, length) - Unpadded(entry, length));
    assert Code(entry, length) == A + (B + (C + D));
    CodeParts(mem, 0, A, B + (C + D));
    CodeParts(mem, 2, B, C + D);
    CodeParts(mem, 4, C, D);
    CodeFirst(mem, ret, D);
    AtWithin(mem, 0, Code(entry, length));
  }

  lemma CodeFirst(mem: seq<byte>, a: int, b: seq<byte>)
    requires CodeAt(mem, a, b) && b != []
    ensures a < |mem| && mem[a] == b[0]
  {
    assert mem[a + 0] == b[0];
  }

  lemma AtWithin(mem: seq<byte>, a: int, b: seq<byte>)
    requires CodeAt(mem, a, b)
    ensures a + |b| <= |mem|
  {
  }

  /** Where the machine arrives: at the entry point, the return address and the result slot
      on its stack, a breakpoint at the return address. */
  ghost predicate Entered(s: State, t: State, target: word, ret: nat) {
    && t.pc == target && t.sp == s.sp - 12 && !t.prevIm && t.halted == s.halted
    && ReadWord(t.mem, t.sp) == Some(ret) && ReadWord(t.mem, t.sp + 4) == Some(ret)
    && ReadWord(t.mem, t.sp + 8) == Some(0)
    && |t.mem| == |s.mem| && ret < |t.mem| && t.mem[ret] == 0x00
    && forall i :: 0 <= i < |s.mem| && !(Align(s.sp - 12) <= i < Align(s.sp - 12) + 12) ==> t.mem[i] == s.mem[i]
  }

  /** im v; nop on a machine with two more words of room, and what lies below stays. */
  lemma PushAndGoOn(s: State, v: nat, hi: int, at: int, b: seq<byte>) returns (t: State)
    requires !s.prevIm && CodeAt(s.mem, s.pc, Im(v) + [0x0b]) && s.pc + |Im(v)| + 1 <= hi
    requires v < 0x1_0000_0000 && Beneath(s, hi) && CodeAt(s.mem, at, b) && at + |b| <= hi
    ensures Push(s, v).Some? && t == Pushed(s, v).(pc := s.pc + |Im(v)| + 1, prevIm := false)
    ensures Iterate(s, |Im(v)| + 1) == Some(t) && CodeAt(t.mem, at, b) && |t.mem| == |s.mem| && t.sp == s.sp - 4
  {
    hide Iterate, Im, CodeAt, Store;
    PushNop(s, v, hi);
    PushKeepsBelow(s, v, at, b);
    t := Pushed(s, v).(pc := s.pc + |Im(v)| + 1, prevIm := false);
  }

  /** The trampoline's first two ims, each with its nop. */
  lemma TwoPushes(s: State, entry: nat, length: nat, ret: nat) returns (t: State)
    requires s.pc == 0 && !s.prevIm && ret < 64 && |Im(0)| == 1 && |Im(ret)| == 1 && CodeAt(s.mem, 0, Im(0) + [0x0b])
    requires CodeAt(s.mem, 2, Im(ret) + [0x0b]) && CodeAt(s.mem, 4, Im(entry) + [0x2d])
    requires 4 + |Im(entry)| + 1 <= length <= Align(s.sp - 8) && Align(s.sp - 4) + 4 <= |s.mem|
    ensures Push(s, 0).Some? && Push(Pushed(s, 0), ret).Some?
    ensures t == Pushed(Pushed(s, 0), ret).(pc := 4, prevIm := false)
    ensures Iterate(s, 4) == Some(t) && CodeAt(t.mem, 4, Im(entry) + [0x2d]) && |t.mem| == |s.mem| && t.sp == s.sp - 8
  {
    hide Iterate, Im, CodeAt, Push;
    var call := Im(entry) + [0x2d];
    var s1 := PushAndGoOn(s, 0, length, 2, Im(ret) + [0x0b]);
    var s1' := PushAndGoOn(s, 0, length, 4, call);
    t := PushAndGoOn(s1, ret, length, 4, call);
    IterateAdd(s, 2, 2);
    PushIgnoresPc(s1, Pushed(s, 0), ret);
  }

  lemma PushIgnoresPc(s: State, u: State, w: word)
    requires s == u.(pc := s.pc, prevIm := s.prevIm)
    ensures Push(s, w).Some? <==> Push(u, w).Some?
    ensures Push(s, w).Some? ==> Pushed(s, w) == Pushed(u, w).(pc := s.pc, prevIm := s.prevIm)
  {
    hide Store;
  }

  /** Running the trampoline from reset. */
  lemma TrampolineRuns(s: State, entry: nat, length: nat) returns (n: nat, t: State)
    requires length == Total(entry, length) && s.pc == 0 && !s.prevIm
    requires CodeAt(s.mem, 0, Code(entry, length))
    requires length <= Align(s.sp - 12) && Align(s.sp - 4) + 4 <= |s.mem|
    ensures Iterate(s, n) == Some(t)
    ensures Entered(s, t, Wrap(entry + length), ReturnOffset(entry, length))
  {
    hide Iterate, Im, CodeAt, ReadWord, Store, ReturnOffset, Total, Code, Push, Entered;
    var ret := ReturnOffset(entry, length);
    var e := Im(entry + length);
    CodeLayout(s.mem, entry, length);
    var u := TwoPushes(s, entry + length, length, ret);
    PushCall(u, entry + length, length);
    IterateAdd(s, 4, |e| + 1);
    PushIgnoresPc(u, Pushed(Pushed(s, 0), ret), ret);
    n, t := 4 + (|e| + 1), Pushed(u, ret).(pc := Wrap(entry + length), prevIm := false);
    Arrives(s, t, Wrap(entry + length), ret);
  }

  lemma Arrives(s: State, t: State, target: word, ret: nat)
    requires 0 <= Align(s.sp - 12) && Align(s.sp - 4) + 4 <= |s.mem| && ret < Align(s.sp - 12) && s.mem[ret] == 0x00
    requires Push(s, 0).Some? && ret < 0x1_0000_0000 && Push(Pushed(s, 0), ret).Some?
    requires Push(Pushed(Pushed(s, 0), ret), ret).Some?
    requires t == Pushed(Pushed(Pushed(s, 0), ret), ret).(pc := target, prevIm := false)
    ensures Entered(s, t, target, ret)
  {
    hide ReadWord, Store;
    ThreePushes(s, 0, ret, ret);
  }
}
