/** The ZPU simulator, sim/zpu.py: one step as a function of the state, and the class that
    performs it in place. A ZPUError, or an index outside the memory, is None. */
module ZpuMachine {
  import opened Words
  import opened CDivision
  import opened Memory
  import opened Powers
  import Bits

  datatype State = State(mem: seq<byte>, pc: nat, sp: int, halted: bool, prevIm: bool)

  function Align(a: int): (r: int)
    ensures r % 4 == 0 && r <= a < r + 4
  {
    a - a % 4
  }

  function ReadWord(mem: seq<byte>, a: int): Option<word> {
    if Align(a) < 0 || Align(a) + 4 > |mem| then None else Some(WordAt(mem, Align(a)))
  }

  function WriteWord(mem: seq<byte>, a: int, w: word): (r: Option<seq<byte>>)
    ensures r.Some? ==> |r.value| == |mem|
  {
    if Align(a) < 0 || Align(a) + 4 > |mem| then None else Some(Store(mem, Align(a), w))
  }

  function Push(s: State, w: word): Option<State> {
    var mem :- WriteWord(s.mem, s.sp - 4, w);
    Some(s.(mem := mem, sp := s.sp - 4))
  }

  function Pop(s: State): Option<(word, State)> {
    var w :- ReadWord(s.mem, s.sp);
    Some((w, s.(sp := s.sp + 4)))
  }

  function ToSigned(w: word): (v: int)
    ensures -0x8000_0000 <= v < 0x8000_0000 && Wrap(v) == w
  {
    if w >= 0x8000_0000 then w - 0x1_0000_0000 else w
  }

  /** The opcodes that pop two words and push one. */
  predicate IsBinary(op: byte) {
    op in {0x05, 0x06, 0x07, 0x24, 0x25, 0x26, 0x27, 0x29, 0x2a, 0x2b, 0x2c, 0x2e, 0x2f, 0x31, 0x32, 0x35, 0x36}
  }

  /** What they push, b being the word popped first. */
  function Binary(op: byte, a: word, b: word): word {
    if op == 0x05 then Wrap((a as int) + b)
    else if op == 0x06 then Wrap(Bits.And(a, b))
    else if op == 0x07 then Wrap(Bits.Or(a, b))
    else if op == 0x24 then (if ToSigned(a) < ToSigned(b) then 1 else 0)
    else if op == 0x25 then (if ToSigned(a) <= ToSigned(b) then 1 else 0)
    else if op == 0x26 then (if a < b then 1 else 0)
    else if op == 0x27 then (if a <= b then 1 else 0)
    else if op == 0x29 then Wrap((a as int) * b)
    else if op == 0x2a then Wrap(Bits.Shr(a, b % 32))
    else if op == 0x2b then Wrap((a as int) * Pow2(b % 32))
    else if op == 0x2c then Wrap(ToSigned(a) / Pow2(b % 32))
    else if op == 0x2e then (if a == b then 1 else 0)
    else if op == 0x2f then (if a != b then 1 else 0)
    else if op == 0x31 then Wrap((a as int) - b)
    else if op == 0x32 then Wrap(Bits.Xor(a, b))
    else if op == 0x35 then (if b == 0 then 0 else Wrap(TruncDiv(ToSigned(a), ToSigned(b))))
    else if op == 0x36 then
      (if b == 0 then 0 else Wrap(ToSigned(a) - TruncDiv(ToSigned(a), ToSigned(b)) * ToSigned(b)))
    else 0
  }

  predicate IsUnary(op: byte) { op in {0x09, 0x0a, 0x30} }

  function Unary(op: byte, a: word): word {
    if op == 0x09 then 0xffff_ffff - a
    else if op == 0x0a then Wrap(Bits.Reverse(a, 32))
    else Wrap(-(a as int))
  }

  function ExecBinary(s: State, op: byte): Option<State> {
    var (b, s1) :- Pop(s);
    var (a, s2) :- Pop(s1);
    Push(s2, Binary(op, a, b))
  }

  function ExecUnary(s: State, op: byte): Option<State> {
    var (a, s1) :- Pop(s);
    Push(s1, Unary(op, a))
  }

  /** Loads: a word, a halfword or a byte replaces its address. */
  function ExecLoad(s: State, op: byte): Option<State> {
    var (a, s1) :- Pop(s);
    if op == 0x08 then
      var w :- ReadWord(s.mem, a);
      Push(s1, w)
    else if op == 0x22 then
      if a + 1 >= |s.mem| then None else Push(s1, (s.mem[a] as int) * 0x100 + s.mem[a + 1])
    else
      if a >= |s.mem| then None else Push(s1, s.mem[a])
  }

  /** Stores: the address is popped first, then the value. */
  function ExecStore(s: State, op: byte): Option<State> {
    var (a, s1) :- Pop(s);
    var (v, s2) :- Pop(s1);
    if op == 0x0c then
      var mem :- WriteWord(s.mem, a, v);
      Some(s2.(mem := mem))
    else if op == 0x23 then
      if a + 1 >= |s.mem| then None
      else Some(s2.(mem := s.mem[a := LowByte(v / 0x100)][a + 1 := LowByte(v)]))
    else
      if a >= |s.mem| then None else Some(s2.(mem := s.mem[a := LowByte(v)]))
  }

  /** call, eqbranch and neqbranch; the boolean says whether pc was set. */
  function ExecBranch(s: State, op: byte): Option<(State, bool)> {
    var (addr, s1) :- Pop(s);
    if op == 0x2d then
      var s2 :- Push(s1, Wrap(s.pc + 1));
      Some((s2.(pc := addr), true))
    else
      var (v, s2) :- Pop(s1);
      if (v == 0) == (op == 0x37) then Some((s2.(pc := addr), true)) else Some((s2, false))
  }

  function Stay(s: Option<State>): Option<(State, bool)> {
    var t :- s;
    Some((t, false))
  }

  /** The instructions without an operand in the opcode: short ones, emulated ones, vectors. */
  function ExecPlain(s: State, op: byte): Option<(State, bool)> {
    if IsBinary(op) then Stay(ExecBinary(s, op))
    else if IsUnary(op) then Stay(ExecUnary(s, op))
    else if op in {0x08, 0x22, 0x33} then Stay(ExecLoad(s, op))
    else if op in {0x0c, 0x23, 0x34} then Stay(ExecStore(s, op))
    else if op in {0x2d, 0x37, 0x38} then ExecBranch(s, op)
    else if op >= 0x20 then
      var s1 :- Push(s, Wrap(s.pc + 1));
      Some((s1.(pc := op % 32 * 32), true))
    else if op == 0x00 then Some((s.(halted := true), true))
    else if op == 0x02 then Stay(Push(s, Wrap(s.sp)))
    else if op == 0x04 then
      var (a, s1) :- Pop(s);
      Some((s1.(pc := a), true))
    else if op == 0x0b then Some((s, false))
    else if op == 0x0d then
      var (a, s1) :- Pop(s);
      Some((s1.(sp := a), false))
    else None
  }

  /** The five-bit offset of loadsp and storesp, with its top bit inverted. */
  function StackOffset(op: byte): int { (if op % 32 >= 16 then op % 32 - 16 else op % 32 + 16) * 4 }

  function ExecStack(s: State, op: byte): Option<State> {
    if op >= 0x60 then
      var w :- ReadWord(s.mem, s.sp + StackOffset(op));
      Push(s, w)
    else if op >= 0x40 then
      var w :- ReadWord(s.mem, s.sp);
      var mem :- WriteWord(s.mem, s.sp + StackOffset(op), w);
      Some(s.(mem := mem, sp := s.sp + 4))
    else
      var v :- ReadWord(s.mem, s.sp);
      var w :- ReadWord(s.mem, s.sp + op % 16 * 4);
      var mem :- WriteWord(s.mem, s.sp, Wrap((v as int) + w));
      Some(s.(mem := mem))
  }

  /** A seven-bit immediate: sign-extended first, shifted in when it continues a run. */
  function ExecIm(s: State, imm: nat, chained: bool): Option<State>
    requires imm < 128
  {
    if chained then
      var (v, s1) :- Pop(s);
      Push(s1, Wrap((v as int) * 128 + imm))
    else
      Push(s, SignExtend(imm))
  }

  function SignExtend(imm: nat): word
    requires imm < 128
  {
    if imm >= 64 then imm + 0xffff_ff80 else imm
  }

  /** An instruction other than im, with the pc of its own byte. */
  function ExecOp(s: State, op: byte): Option<State>
    requires op < 0x80
  {
    if op >= 0x40 || 0x10 <= op < 0x20 then
      var t :- ExecStack(s, op);
      Some(t.(pc := t.pc + 1))
    else
      var (t, branched) :- ExecPlain(s, op);
      Some(if branched then t else t.(pc := t.pc + 1))
  }

  /** One step of the machine. */
  function Step(s: State): Option<State> {
    if s.pc >= |s.mem| then None
    else
      var op := s.mem[s.pc];
      if op >= 0x80 then
        var t :- ExecIm(s.(prevIm := false), op - 0x80, s.prevIm);
        Some(t.(pc := t.pc + 1, prevIm := true))
      else
        ExecOp(s.(prevIm := false), op)
  }

  /** n steps. */
  function Iterate(s: State, n: nat): Option<State>
    decreases n
  {
    if n == 0 then Some(s)
    else
      var t :- Step(s);
      Iterate(t, n - 1)
  }

  lemma {:induction false} IterateAdd(s: State, m: nat, n: nat)
    ensures Iterate(s, m + n) == if Iterate(s, m).None? then None else Iterate(Iterate(s, m).value, n)
    decreases m
  {
    hide Step;
    if m > 0 && Step(s).Some? {
      IterateAdd(Step(s).value, m - 1, n);
    }
  }

  class Zpu {
    var mem: array<byte>
    var pc: nat
    var sp: int
    var halted: bool
    var prevIm: bool

    ghost function View(): State
      reads this, mem
    {
      State(mem[..], pc, sp, halted, prevIm)
    }

    /** The program is copied to the bottom of a zeroed memory; it must fit. */
    constructor (program: seq<byte>, size: nat)
      requires |program| <= size
      ensures fresh(mem)
      ensures View() == State(program + seq(size - |program|, i => 0), 0, size, false, false)
    {
      mem := new byte[size](i => if 0 <= i < |program| then program[i] else 0);
      pc, sp, halted, prevIm := 0, size, false, false;
      new;
      assert mem[..] == program + seq(size - |program|, i => 0);
    }

    method LoadWord(a: int) returns (r: Option<word>)
      ensures r == ReadWord(mem[..], a)
    {
      var at := a - a % 4;
      if at < 0 || at + 4 > mem.Length {
        return None;
      }
      r := Some((mem[at] as int) * 0x100_0000 + (mem[at + 1] as int) * 0x1_0000 + (mem[at + 2] as int) * 0x100 + mem[at + 3]);
    }

    method StoreWord(a: int, w: word) returns (ok: bool)
      modifies mem
      ensures ok <==> WriteWord(old(mem[..]), a, w).Some?
      ensures mem[..] == if ok then WriteWord(old(mem[..]), a, w).value else old(mem[..])
    {
      var at := a - a % 4;
      if at < 0 || at + 4 > mem.Length {
        return false;
      }
      mem[at], mem[at + 1] := LowByte(w / 0x100_0000), LowByte(w / 0x1_0000);
      mem[at + 2], mem[at + 3] := LowByte(w / 0x100), LowByte(w);
      assert mem[..] == Store(old(mem[..]), at, w);
      ok := true;
    }

    method PushWord(w: word) returns (ok: bool)
      modifies this`sp, mem
      ensures ok <==> Push(old(View()), w).Some?
      ensures ok ==> View() == Push(old(View()), w).value
    {
      hide Store;
      sp := sp - 4;
      ok := StoreWord(sp, w);
    }

    method PopWord() returns (r: Option<word>)
      modifies this`sp
      ensures r.Some? <==> Pop(old(View())).Some?
      ensures r.Some? ==> Pop(old(View())).value == (r.value, View())
    {
      hide WordAt;
      r := LoadWord(sp);
      if r.Some? {
        sp := sp + 4;
      }
    }

    method BinaryOp(op: byte) returns (ok: bool)
      modifies this`sp, mem
      ensures ok <==> ExecBinary(old(View()), op).Some?
      ensures ok ==> View() == ExecBinary(old(View()), op).value
    {
      hide Binary;
      var b := PopWord();
      if b.None? {
        return false;
      }
      var a := PopWord();
      if a.None? {
        return false;
      }
      ok := PushWord(Binary(op, a.value, b.value));
    }

    /** The loop of _reverse_bits. */
    method FlipBits(value0: word) returns (result: nat)
      ensures result == Bits.Reverse(value0, 32)
    {
      hide Bits.Reverse, Pow2;
      var value: nat, i := value0, 32;
      result := 0;
      FlipEnd(result, value);
      while i > 0
        invariant i <= 32 && FlipDone(result, value, i) == Bits.Reverse(value0, 32)
      {
        FlipStep(result, value, i - 1);
        result := 2 * result + value % 2;
        value := value / 2;
        i := i - 1;
      }
      FlipEnd(result, value);
    }

    /** The bits already reversed, above those still to come. */
    static ghost function FlipDone(r: nat, value: nat, n: nat): nat { r * Pow2(n) + Bits.Reverse(value, n) }

    static lemma FlipEnd(r: nat, value: nat)
      ensures FlipDone(r, value, 0) == r && FlipDone(0, value, 32) == Bits.Reverse(value, 32)
    {
      hide Bits.Reverse;
      assert 0 * Pow2(32) == 0;
      assert Bits.Reverse(value, 0) < Pow2(0);
    }

    static lemma FlipStep(r: nat, value: nat, n: nat)
      ensures FlipDone(r, value, n + 1) == FlipDone(2 * r + value % 2, value / 2, n)
    {
      FlipArithmetic(r, value % 2, Pow2(n));
    }

    static lemma FlipArithmetic(r: int, b: int, p: int)
      ensures (2 * r + b) * p == r * (2 * p) + b * p
    {
    }

    method UnaryOp(op: byte) returns (ok: bool)
      requires IsUnary(op)
      modifies this`sp, mem
      ensures ok <==> ExecUnary(old(View()), op).Some?
      ensures ok ==> View() == ExecUnary(old(View()), op).value
    {
      hide Bits.Reverse, WordAt, Store;
      var a := PopWord();
      if a.None? {
        return false;
      }
      if op == 0x0a {
        var flipped := FlipBits(a.value);
        Pow2Values();
        ok := PushWord(Wrap(flipped));
      } else {
        ok := PushWord(Unary(op, a.value));
      }
    }

    method Load(op: byte) returns (ok: bool)
      modifies this`sp, mem
      ensures ok <==> ExecLoad(old(View()), op).Some?
      ensures ok ==> View() == ExecLoad(old(View()), op).value
    {
      hide WordAt, Store;
      var a := PopWord();
      if a.None? {
        return false;
      }
      if op == 0x08 {
        var w := LoadWord(a.value);
        if w.None? {
          return false;
        }
        ok := PushWord(w.value);
      } else if op == 0x22 {
        if a.value + 1 >= mem.Length {
          return false;
        }
        ok := PushWord((mem[a.value] as int) * 0x100 + mem[a.value + 1]);
      } else {
        if a.value >= mem.Length {
          return false;
        }
        ok := PushWord(mem[a.value]);
      }
    }

    method StoreOp(op: byte) returns (ok: bool)
      modifies this`sp, mem
      ensures ok <==> ExecStore(old(View()), op).Some?
      ensures ok ==> View() == ExecStore(old(View()), op).value
    {
      hide WordAt, Store;
      var a := PopWord();
      if a.None? {
        return false;
      }
      var v := PopWord();
      if v.None? {
        return false;
      }
      if op == 0x0c {
        ok := StoreWord(a.value, v.value);
      } else if op == 0x23 {
        if a.value + 1 >= mem.Length {
          return false;
        }
        mem[a.value] := LowByte(v.value / 0x100);
        mem[a.value + 1] := LowByte(v.value);
        ok := true;
      } else {
        if a.value >= mem.Length {
          return false;
        }
        mem[a.value] := LowByte(v.value);
        ok := true;
      }
    }

    method Branch(op: byte) returns (ok: bool, branched: bool)
      modifies this`sp, this`pc, mem
      ensures ok <==> ExecBranch(old(View()), op).Some?
      ensures ok ==> ExecBranch(old(View()), op).value == (View(), branched)
    {
      hide WordAt, Store;
      branched := false;
      var addr := PopWord();
      if addr.None? {
        return false, false;
      }
      if op == 0x2d {
        ok := PushWord(Wrap(pc + 1));
        pc := addr.value;
        branched := true;
      } else {
        var v := PopWord();
        if v.None? {
          return false, false;
        }
        ok := true;
        if (v.value == 0) == (op == 0x37) {
          pc := addr.value;
          branched := true;
        }
      }
    }

    /** _execute_short and _emulate */
    method Plain(op: byte) returns (ok: bool, branched: bool)
      modifies this`sp, this`pc, this`halted, mem
      ensures ok <==> ExecPlain(old(View()), op).Some?
      ensures ok ==> ExecPlain(old(View()), op).value == (View(), branched)
    {
      hide WordAt, Store, ExecBinary, ExecUnary, ExecLoad, ExecStore, ExecBranch;
      branched := false;
      if IsBinary(op) {
        ok := BinaryOp(op);
      } else if IsUnary(op) {
        ok := UnaryOp(op);
      } else if op in {0x08, 0x22, 0x33} {
        ok := Load(op);
      } else if op in {0x0c, 0x23, 0x34} {
        ok := StoreOp(op);
      } else if op in {0x2d, 0x37, 0x38} {
        ok, branched := Branch(op);
      } else {
        ok, branched := Control(op);
      }
    }

    method Control(op: byte) returns (ok: bool, branched: bool)
      requires !IsBinary(op) && !IsUnary(op)
      requires op !in {0x08, 0x22, 0x33} && op !in {0x0c, 0x23, 0x34} && op !in {0x2d, 0x37, 0x38}
      modifies this`sp, this`pc, this`halted, mem
      ensures ok <==> ExecPlain(old(View()), op).Some?
      ensures ok ==> ExecPlain(old(View()), op).value == (View(), branched)
    {
      hide WordAt, Store, ExecBinary, ExecUnary, ExecLoad, ExecStore, ExecBranch, IsBinary, IsUnary;
      ok, branched := true, false;
      if op >= 0x20 {
        ok := PushWord(Wrap(pc + 1));
        pc := op % 32 * 32;
        branched := true;
      } else if op == 0x00 {
        halted := true;
        branched := true;
      } else if op == 0x02 {
        ok := PushWord(Wrap(sp));
      } else if op == 0x04 || op == 0x0d {
        var a := PopWord();
        if a.None? {
          return false, false;
        }
        if op == 0x04 {
          pc := a.value;
          branched := true;
        } else {
          sp := a.value;
        }
      } else if op != 0x0b {
        ok := false;
      }
    }

    method StackOp(op: byte) returns (ok: bool)
      modifies this`sp, mem
      ensures ok <==> ExecStack(old(View()), op).Some?
      ensures ok ==> View() == ExecStack(old(View()), op).value
    {
      hide WordAt, Store;
      if op >= 0x60 {
        var w := LoadWord(sp + StackOffset(op));
        if w.None? {
          return false;
        }
        ok := PushWord(w.value);
      } else if op >= 0x40 {
        var w := LoadWord(sp);
        if w.None? {
          return false;
        }
        ok := StoreWord(sp + StackOffset(op), w.value);
        sp := sp + 4;
      } else {
        var v := LoadWord(sp);
        var w := LoadWord(sp + op % 16 * 4);
        if v.None? || w.None? {
          return false;
        }
        ok := StoreWord(sp, Wrap((v.value as int) + w.value));
      }
    }

    method Immediate(imm: nat, chained: bool) returns (ok: bool)
      requires imm < 128
      modifies this`sp, mem
      ensures ok <==> ExecIm(old(View()), imm, chained).Some?
      ensures ok ==> View() == ExecIm(old(View()), imm, chained).value
    {
      hide WordAt, Store;
      if chained {
        var v := PopWord();
        if v.None? {
          return false;
        }
        ok := PushWord(Wrap((v.value as int) * 128 + imm));
      } else {
        ok := PushWord(SignExtend(imm));
      }
    }

    /** step: it fails exactly when the machine would raise. */
    method StepOnce() returns (ok: bool)
      modifies this, mem
      ensures mem == old(mem)
      ensures ok <==> Step(old(View())).Some?
      ensures ok ==> View() == Step(old(View())).value
    {
      hide ExecStack, ExecPlain, ExecIm;
      if pc >= mem.Length {
        return false;
      }
      var op, chained := mem[pc], prevIm;
      prevIm := false;
      var branched := false;
      if op >= 0x80 {
        ok := Immediate(op - 0x80, chained);
        prevIm := true;
      } else if op >= 0x40 || 0x10 <= op < 0x20 {
        ok := StackOp(op);
      } else {
        ok, branched := Plain(op);
      }
      if !branched {
        pc := pc + 1;
      }
    }

    /** run: step until halted; give up at the limit, or where a step fails. */
    method Run(limit: nat) returns (steps: nat, ok: bool)
      modifies this, mem
      ensures steps <= limit
      ensures ok ==> Iterate(old(View()), steps) == Some(View()) && halted
      ensures forall k :: 0 <= k < steps ==> Iterate(old(View()), k).Some? && !Iterate(old(View()), k).value.halted
      ensures !ok ==>
                && Iterate(old(View()), steps).Some? && !Iterate(old(View()), steps).value.halted
                && (steps == limit || Step(Iterate(old(View()), steps).value).None?)
    {
      hide Step;
      steps := 0;
      while !halted
        invariant steps <= limit
        invariant mem == old(mem)
        invariant Iterate(old(View()), steps) == Some(View())
        invariant forall k :: 0 <= k < steps ==> Iterate(old(View()), k).Some? && !Iterate(old(View()), k).value.halted
        decreases limit - steps
      {
        if steps >= limit {
          return steps, false;
        }
        IterateAdd(old(View()), steps, 1);
        ghost var before := View();
        ok := StepOnce();
        if !ok {
          return steps, false;
        }
        assert Iterate(before, 1) == Some(View());
        steps := steps + 1;
      }
      ok := true;
    }
  }
}
