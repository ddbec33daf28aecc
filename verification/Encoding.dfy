/** Why the assembler's opcode table and offset fields are right: executing the byte it emits
    for an instruction does what the instruction set says the instruction does. */
module Encoding {
  import opened Words
  import opened Powers
  import opened CDivision
  import opened Memory
  import opened SourceLanguage
  import opened ZpuMachine
  import opened Immediate
  import opened Assembler
  import Bits

  // Operations on the top of the stack.

  /** Opcode op computes what two-operand instruction `name` is said to compute. */
  ghost predicate Computes(op: byte, name: string) {
    forall a: word, b: word :: Combine(name, a, b) == Some(Binary(op, a, b))
  }

  const COMBINING: map<string, byte> := map[
    "add" := 0x05, "and" := 0x06, "or" := 0x07, "lessthan" := 0x24, "lessthanorequal" := 0x25,
    "ulessthan" := 0x26, "ulessthanorequal" := 0x27, "mult" := 0x29, "lshiftright" := 0x2a,
    "ashiftleft" := 0x2b, "ashiftright" := 0x2c, "eq" := 0x2e, "neq" := 0x2f, "sub" := 0x31,
    "xor" := 0x32, "div" := 0x35, "mod" := 0x36]

  lemma TableCombines(name: string)
    requires name in NULLARY && TakesTwo(name)
    ensures name in COMBINING && NULLARY[name] == COMBINING[name] && IsBinary(NULLARY[name])
  {
    CombiningNames(name);
    CombiningTable(name);
    hide NULLARY, COMBINING;
  }

  lemma CombiningNames(name: string)
    requires TakesTwo(name)
    ensures name in COMBINING
  {
    hide NULLARY, Wrap, ToSigned, Pow2, TruncDiv, TruncMod;
  }

  lemma CombiningTable(name: string)
    requires name in COMBINING
    ensures name in NULLARY && NULLARY[name] == COMBINING[name] && IsBinary(NULLARY[name])
  {
    hide Combine;
  }

  lemma CombineMeans(name: string, op: byte, a: word, b: word)
    requires name in COMBINING && op == COMBINING[name]
    ensures Combine(name, a, b) == Some(Binary(op, a, b))
  {
    hide Combine, Binary;
    if op < 0x20 || op >= 0x31 {
      SumMeans(name, op, a, b);
    } else if 0x29 <= op < 0x2e {
      ShiftMeans(name, op, a, b);
    } else {
      OrderMeans(name, op, a, b);
    }
  }

  lemma SumMeans(name: string, op: byte, a: word, b: word)
    requires (name, op) in [("add", 0x05), ("and", 0x06), ("or", 0x07), ("sub", 0x31), ("xor", 0x32), ("div", 0x35), ("mod", 0x36)]
    ensures Combine(name, a, b) == Some(Binary(op, a, b))
  {
    hide Pow2, TruncDiv, TruncMod, ToSigned;
    if name in ["div", "mod"] && b != 0 {
      SignedNonzero(b);
      TruncIsDivision(ToSigned(a), ToSigned(b));
    }
  }

  lemma ShiftMeans(name: string, op: byte, a: word, b: word)
    requires (name, op) in [("mult", 0x29), ("lshiftright", 0x2a), ("ashiftleft", 0x2b), ("ashiftright", 0x2c)]
    ensures Combine(name, a, b) == Some(Binary(op, a, b))
  {
    hide Pow2, ToSigned;
    Bits.ShiftsAreDivisions(a, b % 32);
  }

  lemma OrderMeans(name: string, op: byte, a: word, b: word)
    requires (name, op) in [("lessthan", 0x24), ("lessthanorequal", 0x25), ("ulessthan", 0x26),
                            ("ulessthanorequal", 0x27), ("eq", 0x2e), ("neq", 0x2f)]
    ensures Combine(name, a, b) == Some(Binary(op, a, b))
  {
    hide ToSigned;
  }

  lemma SignedNonzero(b: word)
    requires b != 0
    ensures ToSigned(b) != 0
  {
  }

  lemma TableComputes(name: string)
    requires name in NULLARY && TakesTwo(name)
    ensures IsBinary(NULLARY[name]) && Computes(NULLARY[name], name)
  {
    hide Combine, Binary;
    TableCombines(name);
    forall a: word, b: word
      ensures Combine(name, a, b) == Some(Binary(NULLARY[name], a, b))
    {
      CombineMeans(name, NULLARY[name], a, b);
    }
  }

  lemma BinaryMeans(name: string, op: byte, s: State)
    requires TakesTwo(name) && IsBinary(op) && Computes(op, name)
    ensures ExecOp(s, op) == Named(name, s)
  {
    hide WordAt, Store, Binary, TakesTwo, Combine;
  }

  /** Opcode op computes what one-operand instruction `name` is said to compute. */
  ghost predicate Alters(op: byte, name: string) {
    forall a: word :: Alter(name, a) == Some(Unary(op, a))
  }

  lemma TableAlters(name: string)
    requires name in NULLARY && TakesOne(name)
    ensures IsUnary(NULLARY[name]) && Alters(NULLARY[name], name) && !TakesTwo(name)
  {
    Unaries();
    hide NULLARY, Bits.Reverse, Wrap, ToSigned, Pow2, TruncDiv, TruncMod;
  }

  lemma Unaries()
    ensures "not" in NULLARY && NULLARY["not"] == 9 && "flip" in NULLARY && NULLARY["flip"] == 10
    ensures "neg" in NULLARY && NULLARY["neg"] == 48
  {
  }

  lemma UnaryMeans(name: string, op: byte, s: State)
    requires TakesOne(name) && !TakesTwo(name) && IsUnary(op) && Alters(op, name)
    ensures ExecOp(s, op) == Named(name, s)
  {
    hide WordAt, Store, Unary, TakesTwo, TakesOne, Alter;
  }

  // Loads and stores.

  lemma Transfers()
    ensures "load" in NULLARY && NULLARY["load"] == 0x08 && "store" in NULLARY && NULLARY["store"] == 0x0c
    ensures "loadh" in NULLARY && NULLARY["loadh"] == 0x22 && "storeh" in NULLARY && NULLARY["storeh"] == 0x23
    ensures "loadb" in NULLARY && NULLARY["loadb"] == 0x33 && "storeb" in NULLARY && NULLARY["storeb"] == 0x34
  {
  }

  lemma TableLoads(name: string)
    requires name in NULLARY && Loads(name)
    ensures NULLARY[name] == (if name == "load" then 0x08 else if name == "loadh" then 0x22 else 0x33)
    ensures !TakesTwo(name) && !TakesOne(name)
  {
    Transfers();
    hide NULLARY, Wrap, ToSigned, Pow2, TruncDiv, TruncMod;
  }

  lemma LoadMeans(name: string, op: byte, s: State)
    requires Loads(name) && !TakesTwo(name) && !TakesOne(name)
    requires op == if name == "load" then 0x08 else if name == "loadh" then 0x22 else 0x33
    ensures ExecOp(s, op) == Named(name, s)
  {
    hide WordAt, Store, TakesTwo, TakesOne;
  }

  lemma TableStores(name: string)
    requires name in NULLARY && Stores(name)
    ensures NULLARY[name] == (if name == "store" then 0x0c else if name == "storeh" then 0x23 else 0x34)
    ensures !TakesTwo(name) && !TakesOne(name) && !Loads(name)
  {
    Transfers();
    hide NULLARY, Wrap, ToSigned, Pow2, TruncDiv, TruncMod;
  }

  lemma StoreMeans(name: string, op: byte, s: State)
    requires Stores(name) && !TakesTwo(name) && !TakesOne(name) && !Loads(name)
    requires op == if name == "store" then 0x0c else if name == "storeh" then 0x23 else 0x34
    ensures ExecOp(s, op) == Named(name, s)
  {
    hide WordAt, Store, TakesTwo, TakesOne;
  }

  // Everything else.

  const STEERING: map<string, byte> := map[
    "call" := 0x2d, "eqbranch" := 0x37, "neqbranch" := 0x38, "poppc" := 0x04, "pushsp" := 0x02,
    "popsp" := 0x0d, "breakpoint" := 0x00, "nop" := 0x0b]

  ghost predicate IsSteering(name: string) {
    !TakesTwo(name) && !TakesOne(name) && !Loads(name) && !Stores(name)
  }

  lemma TableSteers(name: string)
    requires name in NULLARY && IsSteering(name)
    ensures name in STEERING && NULLARY[name] == STEERING[name]
  {
    hide Wrap, ToSigned, Pow2, TruncDiv, TruncMod;
  }

  lemma SteerMeans(name: string, s: State)
    requires name in STEERING && IsSteering(name)
    ensures ExecOp(s, STEERING[name]) == Named(name, s)
  {
    hide WordAt, Store, TakesTwo, TakesOne, Loads, Stores, Wrap;
    if name in ["call", "eqbranch", "neqbranch"] {
      BranchMeans(name, STEERING[name], s);
    }
  }

  lemma BranchMeans(name: string, op: byte, s: State)
    requires IsSteering(name)
    requires (name, op) in [("call", 0x2d), ("eqbranch", 0x37), ("neqbranch", 0x38)]
    ensures ExecOp(s, op) == Named(name, s)
  {
    hide WordAt, Store, TakesTwo, TakesOne, Loads, Stores, Wrap;
  }

  /** The opcode table is right: every mnemonic without operand names its own operation. */
  lemma NamedMeans(name: string, s: State)
    requires name in NULLARY
    ensures NULLARY[name] < 0x80 && ExecOp(s, NULLARY[name]) == Named(name, s)
  {
    hide ExecOp, Named, Computes, Alters, TakesTwo, TakesOne, Loads, Stores;
    if TakesTwo(name) {
      TableComputes(name);
      BinaryMeans(name, NULLARY[name], s);
    } else if TakesOne(name) {
      TableAlters(name);
      UnaryMeans(name, NULLARY[name], s);
    } else if Loads(name) {
      TableLoads(name);
      LoadMeans(name, NULLARY[name], s);
    } else if Stores(name) {
      TableStores(name);
      StoreMeans(name, NULLARY[name], s);
    } else {
      TableSteers(name);
      SteerMeans(name, s);
    }
  }

  // What can be encoded.

  /** Every instruction that has a meaning without an operand has an opcode, and no other name. */
  lemma NamesComplete(name: string)
    ensures name in NULLARY <==> HasMeaning(name)
  {
    if name in NULLARY {
      NamesKnown(name);
    } else if HasMeaning(name) {
      NamesAssembled(name);
    }
  }

  predicate HasMeaning(name: string) {
    TakesTwo(name) || TakesOne(name) || Loads(name) || Stores(name) || Steers(name)
  }

  predicate Steers(name: string) {
    name in ["call", "eqbranch", "neqbranch", "poppc", "pushsp", "popsp", "breakpoint", "nop"]
  }

  lemma NamesKnown(name: string)
    requires name in NULLARY
    ensures HasMeaning(name)
  {
    if IsSteering(name) {
      TableSteers(name);
    }
  }

  lemma NamesAssembled(name: string)
    requires HasMeaning(name)
    ensures name in NULLARY
  {
    hide NULLARY, COMBINING, Combine, Steers, TakesTwo;
    if TakesTwo(name) {
      CombiningNames(name);
      CombiningTable(name);
    } else if Steers(name) {
      SteeringNames(name);
    } else {
      Unaries();
      Transfers();
    }
  }

  lemma SteeringNames(name: string)
    requires Steers(name)
    ensures name in NULLARY
  {
  }

  /** The operand is one the mnemonic can have, in a program with these labels. */
  ghost predicate Encodable(u: Unit, names: seq<string>) {
    u.Insn? &&
    match u.mnemonic
    case "im" => u.operand.Number? || (u.operand.Symbol? && u.operand.name in names)
    case "loadsp" => u.operand.Number? && u.operand.n % 4 == 0 && 0 <= u.operand.n <= 124
    case "storesp" => u.operand.Number? && u.operand.n % 4 == 0 && 0 <= u.operand.n <= 124
    case "addsp" => u.operand.Number? && u.operand.n % 4 == 0 && 0 <= u.operand.n <= 60
    case "emulate" => u.operand.Number? && 0 <= u.operand.n <= 31
    case name => u.operand == NoOperand && HasMeaning(name)
  }

  /** An instruction is encoded exactly when its operand is one it can have: a number or a known
      label for im, multiples of four that fit the field for the offsets, a vector for emulate,
      none for everything else that has a meaning. */
  lemma EncodesExactly(u: Unit, labels: map<string, nat>, names: seq<string>)
    requires u.Insn? && forall name :: name in labels <==> name in names
    ensures Encode(u, labels).Some? <==> Encodable(u, names)
  {
    hide NULLARY, Chunks, FlipTop, HasMeaning;
    NamesComplete(u.mnemonic);
  }

  // Operands.

  /** The inverted top bit of the offset field: the machine undoes what the encoder does, and
      the offset is the one written. */
  lemma RelativeMeans(name: string, n: nat, op: byte, s: State)
    requires n % 4 == 0 && n <= if name == "addsp" then 60 else 124
    requires (name, op) in [("loadsp", 0x60 + FlipTop(n / 4)), ("storesp", 0x40 + FlipTop(n / 4)), ("addsp", 0x10 + n / 4)]
    ensures op < 0x80 && ExecOp(s, op) == Relative(name, n, s)
  {
    hide WordAt, Store;
    if name == "addsp" {
      assert op % 16 * 4 == n;
    } else {
      assert StackOffset(op) == n;
    }
  }

  /** The emulated instructions are numbered by their opcodes. */
  lemma EmulatedTable(v: nat)
    requires v < 32 && 32 + v in EMULATED
    ensures EMULATED[32 + v] in NULLARY && NULLARY[EMULATED[32 + v]] == 32 + v
  {
    Memories();
    Orders();
    Shifts();
    Branches();
    hide NULLARY;
  }

  lemma Memories()
    ensures "loadh" in NULLARY && NULLARY["loadh"] == 34 && "storeh" in NULLARY && NULLARY["storeh"] == 35
    ensures "loadb" in NULLARY && NULLARY["loadb"] == 51 && "storeb" in NULLARY && NULLARY["storeb"] == 52
    ensures "div" in NULLARY && NULLARY["div"] == 53 && "mod" in NULLARY && NULLARY["mod"] == 54
  {
  }

  lemma Orders()
    ensures "lessthan" in NULLARY && NULLARY["lessthan"] == 36
    ensures "lessthanorequal" in NULLARY && NULLARY["lessthanorequal"] == 37
    ensures "ulessthan" in NULLARY && NULLARY["ulessthan"] == 38
    ensures "ulessthanorequal" in NULLARY && NULLARY["ulessthanorequal"] == 39
    ensures "eq" in NULLARY && NULLARY["eq"] == 46 && "neq" in NULLARY && NULLARY["neq"] == 47
  {
  }

  lemma Shifts()
    ensures "mult" in NULLARY && NULLARY["mult"] == 41 && "lshiftright" in NULLARY && NULLARY["lshiftright"] == 42
    ensures "ashiftleft" in NULLARY && NULLARY["ashiftleft"] == 43
    ensures "ashiftright" in NULLARY && NULLARY["ashiftright"] == 44
    ensures "neg" in NULLARY && NULLARY["neg"] == 48 && "sub" in NULLARY && NULLARY["sub"] == 49
    ensures "xor" in NULLARY && NULLARY["xor"] == 50
  {
  }

  lemma Branches()
    ensures "call" in NULLARY && NULLARY["call"] == 45 && "eqbranch" in NULLARY && NULLARY["eqbranch"] == 55
    ensures "neqbranch" in NULLARY && NULLARY["neqbranch"] == 56
  {
  }

  lemma VectorMeans(v: nat, s: State)
    requires v < 32 && 32 + v !in EMULATED
    ensures ExecOp(s, 0x20 + v) == Emulate(v, s)
  {
    hide WordAt, Store, Wrap, Named;
  }

  /** emulate v reaches the 32-byte slot v exactly when the machine has no instruction of that
      number itself. */
  lemma EmulateMeans(v: nat, s: State)
    requires v < 32
    ensures ExecOp(s, 0x20 + v) == Emulate(v, s)
  {
    hide ExecOp, Named;
    if 32 + v in EMULATED {
      EmulatedTable(v);
      NamedMeans(EMULATED[32 + v], s);
    } else {
      VectorMeans(v, s);
    }
  }

  /** The encoding of every instruction other than im is right. */
  lemma EncodingMeans(u: Unit, labels: map<string, nat>, s: State)
    requires u.Insn? && !IsIm(u) && Encode(u, labels).Some?
    ensures |Encode(u, labels).value| == 1 && Encode(u, labels).value[0] < 0x80
    ensures ExecOp(s, Encode(u, labels).value[0]) == Meaning(u, s)
  {
    hide ExecOp, Named, Relative, Emulate;
    EncodeLength(u, labels);
    if u.mnemonic == "emulate" {
      EmulateMeans(u.operand.n, s);
    } else if u.mnemonic in ["loadsp", "storesp", "addsp"] {
      RelativeMeans(u.mnemonic, u.operand.n, Encode(u, labels).value[0], s);
    } else {
      NamedMeans(u.mnemonic, s);
    }
  }
}
