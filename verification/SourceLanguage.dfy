/** The assembly language itself: what a row is, and what each instruction means according to
    the instruction set, docs/zpu_isa.txt. Nothing here mentions an opcode byte. */
module SourceLanguage {
  import opened Words
  import opened Memory
  import opened Powers
  import opened CDivision
  import opened ZpuMachine
  import Bits

  datatype Operand = NoOperand | Number(n: int) | Symbol(name: string)
  datatype Row = Row(names: seq<string>, mnemonic: Option<string>, operand: Operand)
  datatype Unit = Label(name: string) | Insn(mnemonic: string, operand: Operand)

  const NOP := Insn("nop", NoOperand)

  predicate IsIm(u: Unit) { u.Insn? && u.mnemonic == "im" }

  /** What a two-operand instruction leaves, b being the top of the stack and a the word
      below it; None for any other name. */
  function Combine(name: string, a: word, b: word): Option<word> {
    match name
    case "add" => Some(Wrap((a as int) + b))
    case "sub" => Some(Wrap((a as int) - b))
    case "mult" => Some(Wrap((a as int) * b))
    case "and" => Some(Wrap(Bits.And(a, b)))
    case "or" => Some(Wrap(Bits.Or(a, b)))
    case "xor" => Some(Wrap(Bits.Xor(a, b)))
    case "eq" => Some(if a == b then 1 else 0)
    case "neq" => Some(if a == b then 0 else 1)
    case "lessthan" => Some(if ToSigned(a) < ToSigned(b) then 1 else 0)
    case "lessthanorequal" => Some(if ToSigned(a) <= ToSigned(b) then 1 else 0)
    case "ulessthan" => Some(if a < b then 1 else 0)
    case "ulessthanorequal" => Some(if a <= b then 1 else 0)
    case "lshiftright" => Some(Wrap(a / Pow2(b % 32)))
    case "ashiftright" => Some(Wrap(ToSigned(a) / Pow2(b % 32)))
    case "ashiftleft" => Some(Wrap(a * Pow2(b % 32)))
    case "div" => Some(if b == 0 then 0 else Wrap(TruncDiv(ToSigned(a), ToSigned(b))))
    case "mod" => Some(if b == 0 then 0 else Wrap(TruncMod(ToSigned(a), ToSigned(b))))
    case _ => None
  }

  /** What a one-operand instruction leaves. */
  function Alter(name: string, a: word): Option<word> {
    match name
    case "not" => Some(0xffff_ffff - a)
    case "neg" => Some(Wrap(-(a as int)))
    case "flip" => Some(Wrap(Bits.Reverse(a, 32)))
    case _ => None
  }

  /** What a load finds at address a. */
  function Fetch(name: string, mem: seq<byte>, a: word): Option<word> {
    match name
    case "load" => ReadWord(mem, a)
    case "loadh" => if a + 1 < |mem| then Some((mem[a] as int) * 0x100 + mem[a + 1]) else None
    case "loadb" => if a < |mem| then Some(mem[a]) else None
    case _ => None
  }

  /** Memory after a store of v at address a. */
  function Deposit(name: string, mem: seq<byte>, a: word, v: word): Option<seq<byte>> {
    match name
    case "store" => WriteWord(mem, a, v)
    case "storeh" => if a + 1 < |mem| then Some(mem[a := LowByte(v / 0x100)][a + 1 := LowByte(v)]) else None
    case "storeb" => if a < |mem| then Some(mem[a := LowByte(v)]) else None
    case _ => None
  }

  predicate TakesTwo(name: string) { Combine(name, 0, 0).Some? }
  predicate TakesOne(name: string) { Alter(name, 0).Some? }
  predicate Loads(name: string) { name in ["load", "loadh", "loadb"] }
  predicate Stores(name: string) { name in ["store", "storeh", "storeb"] }

  /** Going on behind the instruction at s.pc. */
  function Onward(s: State): State { s.(pc := s.pc + 1) }

  /** An instruction without operand, executed in state s whose pc is its own address. */
  function Named(name: string, s: State): Option<State> {
    if TakesTwo(name) then
      var (b, s1) :- Pop(s);
      var (a, s2) :- Pop(s1);
      var w :- Combine(name, a, b);
      var t :- Push(s2, w);
      Some(Onward(t))
    else if TakesOne(name) then
      var (a, s1) :- Pop(s);
      var w :- Alter(name, a);
      var t :- Push(s1, w);
      Some(Onward(t))
    else if Loads(name) then
      var (a, s1) :- Pop(s);
      var w :- Fetch(name, s.mem, a);
      var t :- Push(s1, w);
      Some(Onward(t))
    else if Stores(name) then
      var (a, s1) :- Pop(s);
      var (v, s2) :- Pop(s1);
      var mem :- Deposit(name, s.mem, a, v);
      Some(Onward(s2.(mem := mem)))
    else Steered(name, s)
  }

  /** The instructions that move pc or sp, stop the machine or do nothing. */
  function Steered(name: string, s: State): Option<State> {
    match name
    case "call" =>
      var (target, s1) :- Pop(s);
      var t :- Push(s1, Wrap(s.pc + 1));
      Some(t.(pc := target))
    case "eqbranch" =>
      var (target, s1) :- Pop(s);
      var (v, s2) :- Pop(s1);
      Some(if v == 0 then s2.(pc := target) else Onward(s2))
    case "neqbranch" =>
      var (target, s1) :- Pop(s);
      var (v, s2) :- Pop(s1);
      Some(if v != 0 then s2.(pc := target) else Onward(s2))
    case "poppc" =>
      var (target, s1) :- Pop(s);
      Some(s1.(pc := target))
    case "pushsp" =>
      var t :- Push(s, Wrap(s.sp));
      Some(Onward(t))
    case "popsp" =>
      var (sp, s1) :- Pop(s);
      Some(Onward(s1.(sp := sp)))
    case "breakpoint" => Some(s.(halted := true))
    case "nop" => Some(Onward(s))
    case _ => None
  }

  /** The emulated instructions this machine performs itself, by their number in the
      instruction set. */
  const EMULATED: map<nat, string> := map[
    34 := "loadh", 35 := "storeh", 36 := "lessthan", 37 := "lessthanorequal", 38 := "ulessthan",
    39 := "ulessthanorequal", 41 := "mult", 42 := "lshiftright", 43 := "ashiftleft",
    44 := "ashiftright", 45 := "call", 46 := "eq", 47 := "neq", 48 := "neg", 49 := "sub", 50 := "xor",
    51 := "loadb", 52 := "storeb", 53 := "div", 54 := "mod", 55 := "eqbranch", 56 := "neqbranch"]

  /** emulate v: the instruction numbered 32 + v when the machine performs it, otherwise a
      call of the handler in the 32-byte slot v. */
  function Emulate(v: nat, s: State): Option<State> {
    if 32 + v in EMULATED then Named(EMULATED[32 + v], s)
    else
      var t :- Push(s, Wrap(s.pc + 1));
      Some(t.(pc := 32 * v))
  }

  /** loadsp n pushes the word n bytes above the stack pointer, storesp n pops a word into
      that place, addsp n adds that word to the top of the stack. */
  function Relative(name: string, n: nat, s: State): Option<State> {
    match name
    case "loadsp" =>
      var w :- ReadWord(s.mem, s.sp + n);
      var t :- Push(s, w);
      Some(Onward(t))
    case "storesp" =>
      var (w, s1) :- Pop(s);
      var mem :- WriteWord(s.mem, s.sp + n, w);
      Some(Onward(s1.(mem := mem)))
    case "addsp" =>
      var v :- ReadWord(s.mem, s.sp);
      var w :- ReadWord(s.mem, s.sp + n);
      var mem :- WriteWord(s.mem, s.sp, Wrap((v as int) + w));
      Some(Onward(s.(mem := mem)))
    case _ => None
  }

  /** What an instruction other than im does. */
  function Meaning(u: Unit, s: State): Option<State>
    requires u.Insn? && !IsIm(u)
  {
    if u.operand.Number? && u.operand.n >= 0 && u.mnemonic == "emulate" then Emulate(u.operand.n, s)
    else if u.operand.Number? && u.operand.n >= 0 then Relative(u.mnemonic, u.operand.n, s)
    else if u.operand == NoOperand then Named(u.mnemonic, s)
    else None
  }

  // What the operations leave, without the functions they are defined by.

  /** and, or, xor, not and flip, bit by bit. */
  lemma LogicIsBitwise(a: word, b: word, k: nat)
    requires k < 32
    ensures Combine("and", a, b).Some? && Combine("or", a, b).Some? && Combine("xor", a, b).Some?
    ensures Bits.Bit(Combine("and", a, b).value, k) <==> Bits.Bit(a, k) && Bits.Bit(b, k)
    ensures Bits.Bit(Combine("or", a, b).value, k) <==> Bits.Bit(a, k) || Bits.Bit(b, k)
    ensures Bits.Bit(Combine("xor", a, b).value, k) <==> Bits.Bit(a, k) != Bits.Bit(b, k)
    ensures Alter("not", a).Some? && (Bits.Bit(Alter("not", a).value, k) <==> !Bits.Bit(a, k))
    ensures Alter("flip", a).Some? && (Bits.Bit(Alter("flip", a).value, k) <==> Bits.Bit(a, 31 - k))
  {
    hide Bits.Bit, Bits.And, Bits.Or, Bits.Xor, Bits.Reverse, Pow2;
    Pow2Values();
    Bits.AndBits(a, b, k);
    Bits.OrBits(a, b, k);
    Bits.XorBits(a, b, k);
    Bits.OrBounds(a, b, 32);
    var n := 32;
    Bits.NotBits(a, n, k);
    Bits.ReverseBits(a, n, k);
  }

  /** A word is its two halfwords, a halfword its two bytes, the more significant one first. */
  lemma LoadsAgree(mem: seq<byte>, a: word)
    requires a % 4 == 0 && a + 4 <= |mem|
    ensures Fetch("loadb", mem, a) == Some(mem[a])
    ensures Fetch("loadh", mem, a) == Some((mem[a] as int) * 0x100 + mem[a + 1])
    ensures Fetch("loadh", mem, a).Some? && Fetch("loadh", mem, a + 2).Some?
    ensures Fetch("load", mem, a)
         == Some((Fetch("loadh", mem, a).value as int) * 0x1_0000 + Fetch("loadh", mem, a + 2).value)
  {
  }

  /** What is stored is loaded again, as much of it as the instruction keeps, and no other byte
      changes: a word goes to the four bytes of its aligned address, a halfword to two, a byte
      to one. */
  lemma StoresReadBack(mem: seq<byte>, a: word, v: word)
    ensures DepositsAt("store", "load", mem, a, v, a - a % 4, 4, v)
    ensures DepositsAt("storeh", "loadh", mem, a, v, a, 2, v % 0x1_0000)
    ensures DepositsAt("storeb", "loadb", mem, a, v, a, 1, v % 0x100)
  {
    hide DepositsAt;
    WordReadsBack(mem, a, v);
    HalfReadsBack(mem, a, v);
    ByteReadsBack(mem, a, v);
  }

  lemma HalfReadsBack(mem: seq<byte>, a: word, v: word)
    ensures DepositsAt("storeh", "loadh", mem, a, v, a, 2, v % 0x1_0000)
  {
    hide LowByte;
    TwoBytes(v);
  }

  lemma TwoBytes(v: word)
    ensures v % 0x1_0000 == (LowByte(v / 0x100) as int) * 0x100 + LowByte(v)
  {
    var q, r := v / 0x100, v % 0x100;
    assert v == (q / 0x100) * 0x1_0000 + (q % 0x100 * 0x100 + r);
  }

  lemma ByteReadsBack(mem: seq<byte>, a: word, v: word)
    ensures DepositsAt("storeb", "loadb", mem, a, v, a, 1, v % 0x100)
  {
  }

  lemma WordReadsBack(mem: seq<byte>, a: word, v: word)
    ensures DepositsAt("store", "load", mem, a, v, a - a % 4, 4, v)
  {
    hide WordAt, Store;
    if Align(a) + 4 <= |mem| {
      StoreLoad(mem, Align(a), v);
    }
  }

  /** The store takes n bytes from `at` on, succeeds exactly when they are inside, and leaves
      `kept` to the load. */
  ghost predicate DepositsAt(store: string, load: string, mem: seq<byte>, a: word, v: word, at: int, n: nat,
                             kept: word) {
    var m := Deposit(store, mem, a, v);
    && (m.Some? <==> at + n <= |mem|)
    && (m.Some? ==>
          && Fetch(load, m.value, a) == Some(kept) && |m.value| == |mem|
          && forall i :: 0 <= i < |mem| && !(at <= i < at + n) ==> m.value[i] == mem[i])
  }
}
