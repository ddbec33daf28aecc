/** What assembled programs do: a machine that executes the source language by its meaning,
    and the proof that running the assembled bytes simulates it. */
module Simulation {
  import opened Words
  import opened Memory
  import opened SourceLanguage
  import opened ZpuMachine
  import opened Immediate
  import opened Assembler
  import opened Encoding

  // The source-level machine. It runs one instruction at a time, by its meaning; its code
  // addresses are those the assembler gives to instructions.

  /** The word an im pushes: its number, or the offset its label denotes. */
  ghost function ImWord(u: Unit, labels: map<string, nat>): word
    requires IsIm(u) && Encode(u, labels).Some?
  {
    if u.operand.Number? then Wrap(u.operand.n) else Wrap(labels[u.operand.name])
  }

  lemma ImDenotes(u: Unit, labels: map<string, nat>)
    requires IsIm(u) && Encode(u, labels).Some?
    ensures IsImRun(Encode(u, labels).value) && RunValue(Encode(u, labels).value) == ImWord(u, labels)
  {
    hide RunValue, Chunks;
    if u.operand.Number? {
      MinimalRunDenotes(u.operand.n);
    } else {
      FixedRun(labels[u.operand.name]);
    }
  }

  datatype Source = Source(at: nat, mem: seq<byte>, sp: int, halted: bool)

  ghost predicate WellFormed(p: Program) {
    && (forall k :: 0 <= k < |p.insns| ==> p.insns[k].Insn?)
    && Encoded(p.insns, p.labels, p.code)
    && Apart(p.insns)
  }

  /** The instruction that starts at an address, if one does. */
  ghost function IndexAt(p: Program, pc: int): (i: Option<nat>)
    requires WellFormed(p)
    ensures i.Some? ==> i.value <= |p.insns| && Start(p.insns, i.value) == pc
  {
    if exists j: nat :: j <= |p.insns| && Start(p.insns, j) == pc then
      var j: nat :| j <= |p.insns| && Start(p.insns, j) == pc;
      Some(j)
    else None
  }

  /** One source step: an im is one push of its word, any other instruction acts as the
      instruction set says. None on a memory fault, on a write to the code, or on a jump to
      an address at which no instruction starts. */
  ghost function SourceStep(p: Program, s: Source): Option<Source>
    requires WellFormed(p)
  {
    if s.at >= |p.insns| then None
    else if IsIm(p.insns[s.at]) then
      if Align(s.sp - 4) < |p.code| then None
      else
        var mem :- WriteWord(s.mem, s.sp - 4, ImWord(p.insns[s.at], p.labels));
        Some(Source(s.at + 1, mem, s.sp - 4, s.halted))
    else
      var t :- Meaning(p.insns[s.at], State(s.mem, Start(p.insns, s.at), s.sp, s.halted, false));
      var j :- IndexAt(p, t.pc);
      if CodeAt(t.mem, 0, p.code) then Some(Source(j, t.mem, t.sp, t.halted)) else None
  }

  ghost function SourceRun(p: Program, s: Source, n: nat): Option<Source>
    requires WellFormed(p)
    decreases n
  {
    if n == 0 then Some(s)
    else
      var t :- SourceStep(p, s);
      SourceRun(p, t, n - 1)
  }

  /** The machine state that stands for a source state. */
  ghost predicate Represents(p: Program, s: Source, z: State)
    requires WellFormed(p)
  {
    && s.at <= |p.insns| && z.pc == Start(p.insns, s.at)
    && z.mem == s.mem && z.sp == s.sp && z.halted == s.halted
    && CodeAt(z.mem, 0, p.code)
    && (z.prevIm && s.at < |p.insns| ==> !IsIm(p.insns[s.at]))
  }

  lemma ImSimulates(p: Program, s: Source, z: State) returns (n: nat, z': State)
    requires WellFormed(p) && Represents(p, s, z) && SourceStep(p, s).Some?
    requires IsIm(p.insns[s.at])
    ensures n >= 1 && Iterate(z, n) == Some(z') && Represents(p, SourceStep(p, s).value, z')
  {
    hide Iterate, Encode, RunValue, Store, Start;
    var u := p.insns[s.at];
    var b := Encode(u, p.labels).value;
    ImDenotes(u, p.labels);
    EncodeLength(u, p.labels);
    CodeWithin(z.mem, p.code, z.pc, b);
    RunIm(z, b);
    n, z' := |b|, Push(z, RunValue(b)).value.(pc := z.pc + |b|, prevIm := true);
    StoreKeepsCode(z.mem, Align(z.sp - 4), ImWord(u, p.labels), p.code);
    StartNext(p.insns, s.at);
  }

  lemma CodeWithin(mem: seq<byte>, code: seq<byte>, a: nat, b: seq<byte>)
    requires CodeAt(mem, 0, code) && CodeAt(code, a, b)
    ensures CodeAt(mem, a, b) && a + |b| <= |code|
  {
    forall i | 0 <= i < |b|
      ensures mem[a + i] == b[i]
    {
      assert mem[0 + (a + i)] == code[a + i];
    }
  }

  lemma OpSimulates(p: Program, s: Source, z: State) returns (z': State)
    requires WellFormed(p) && Represents(p, s, z) && SourceStep(p, s).Some?
    requires !IsIm(p.insns[s.at])
    ensures Iterate(z, 1) == Some(z') && Represents(p, SourceStep(p, s).value, z')
  {
    hide Iterate, Encode, ExecOp, Meaning;
    var u := p.insns[s.at];
    EncodeLength(u, p.labels);
    EncodingMeans(u, p.labels, z.(prevIm := false));
    var b := Encode(u, p.labels).value;
    CodeWithin(z.mem, p.code, Start(p.insns, s.at), b);
    assert z.mem[z.pc + 0] == b[0];
    IterateOne(z);
    z' := Step(z).value;
    ClearsIm(z.(prevIm := false), b[0]);
  }

  lemma ClearsIm(s: State, op: byte)
    requires op < 0x80 && !s.prevIm && ExecOp(s, op).Some?
    ensures !ExecOp(s, op).value.prevIm
  {
    hide Store, WordAt, Binary, Unary;
  }

  /** Every run of the source program is matched by a run of its bytes. */
  lemma {:induction false} RunSimulates(p: Program, s: Source, z: State, n: nat) returns (m: nat, z': State)
    requires WellFormed(p) && Represents(p, s, z) && SourceRun(p, s, n).Some?
    ensures m >= n && Iterate(z, m) == Some(z') && Represents(p, SourceRun(p, s, n).value, z')
    decreases n
  {
    hide SourceStep, Represents, WellFormed, Step, Iterate;
    if n == 0 {
      IterateZero(z);
      return 0, z;
    }
    var next := SourceStep(p, s).value;
    assert SourceRun(p, s, n) == SourceRun(p, next, n - 1);
    var k, t := StepSimulates(p, s, z);
    var l;
    l, z' := RunSimulates(p, next, t, n - 1);
    IterateAdd(z, k, l);
    m := k + l;
  }

  lemma IterateZero(z: State)
    ensures Iterate(z, 0) == Some(z)
  {
  }

  lemma StepSimulates(p: Program, s: Source, z: State) returns (n: nat, z': State)
    requires WellFormed(p) && Represents(p, s, z) && SourceStep(p, s).Some?
    ensures n >= 1 && Iterate(z, n) == Some(z') && Represents(p, SourceStep(p, s).value, z')
  {
    if IsIm(p.insns[s.at]) {
      n, z' := ImSimulates(p, s, z);
    } else {
      n := 1;
      z' := OpSimulates(p, s, z);
    }
  }

  /** A padding nop only moves on. */
  lemma PaddingStutters(p: Program, s: Source)
    requires WellFormed(p) && s.at < |p.insns| && p.insns[s.at] == NOP && CodeAt(s.mem, 0, p.code)
    ensures SourceStep(p, s) == Some(s.(at := s.at + 1))
  {
    hide Start, IndexAt, Meaning, IsIm, SourceStep, Encoded, Apart, CodeAt;
    var state := State(s.mem, Start(p.insns, s.at), s.sp, s.halted, false);
    NopIsPlain();
    NopMeans(state);
    NopAdvances(p, s.at);
    IndexOfStart(p, s.at + 1);
    PlainStep(p, s, state.(pc := Start(p.insns, s.at + 1)), s.at + 1);
  }

  /** A step of an instruction other than im that leaves the code alone and goes on at j. */
  lemma PlainStep(p: Program, s: Source, t: State, j: nat)
    requires WellFormed(p) && s.at < |p.insns| && !IsIm(p.insns[s.at])
    requires Meaning(p.insns[s.at], State(s.mem, Start(p.insns, s.at), s.sp, s.halted, false)) == Some(t)
    requires IndexAt(p, t.pc) == Some(j) && CodeAt(t.mem, 0, p.code)
    ensures SourceStep(p, s) == Some(Source(j, t.mem, t.sp, t.halted))
  {
    hide Start, IndexAt, Meaning, IsIm, WellFormed, CodeAt;
  }

  lemma NopIsPlain()
    ensures !IsIm(NOP)
  {
  }

  lemma NopAdvances(p: Program, i: nat)
    requires WellFormed(p) && i < |p.insns| && p.insns[i] == NOP
    ensures Start(p.insns, i + 1) == Start(p.insns, i) + 1
  {
    hide Start, Encoded, Apart;
    assert Length(NOP) == Some(1);
    StartNext(p.insns, i);
  }

  lemma IndexOfStart(p: Program, i: nat)
    requires WellFormed(p) && i <= |p.insns|
    ensures IndexAt(p, Start(p.insns, i)) == Some(i)
  {
    hide Start;
    var j := IndexAt(p, Start(p.insns, i));
    assert j.Some?;
    if j.value < i {
      StartIncreases(p.insns, j.value, i);
    } else if j.value > i {
      StartIncreases(p.insns, i, j.value);
    }
  }

  lemma NopMeans(s: State)
    ensures Meaning(NOP, s) == Some(s.(pc := s.pc + 1))
  {
  }

  lemma StartNext(insns: seq<Unit>, i: nat)
    requires i < |insns| && forall k :: 0 <= k < |insns| ==> insns[k].Insn?
    requires Length(insns[i]).Some?
    ensures Start(insns, i + 1) == Start(insns, i) + Length(insns[i]).value
  {
  }

  /** The instructions as written, before padding. */
  function Written(rows: seq<Row>): seq<Unit> {
    if rows == [] then []
    else (if rows[0].mnemonic.Some? then [Insn(rows[0].mnemonic.value, rows[0].operand)] else [])
         + Written(rows[1..])
  }

  /** Padding puts one nop between two consecutive ims and nothing anywhere else. */
  function Padded(insns: seq<Unit>, prevIm: bool): seq<Unit> {
    if insns == [] then []
    else (if prevIm && IsIm(insns[0]) then [NOP, insns[0]] else [insns[0]]) + Padded(insns[1..], IsIm(insns[0]))
  }

  lemma {:induction false} ExpansionIsPadding(rows: seq<Row>, prevIm: bool)
    ensures Insns(Expanded(rows, prevIm)) == Padded(Written(rows), prevIm)
    decreases |rows|
  {
    assert Insns([]) == [] && Padded([], prevIm) == [];
    hide Insns, Padded, RowUnits;
    if rows != [] {
      var r := rows[0];
      ExpansionIsPadding(rows[1..], NextIm(r, prevIm));
      InsnsAppend(RowUnits(r, prevIm), Expanded(rows[1..], NextIm(r, prevIm)));
      RowInsns(r, prevIm);
      hide Expanded;
      if r.mnemonic.Some? {
        var u := Insn(r.mnemonic.value, r.operand);
        PaddedOne(u, Written(rows[1..]), prevIm);
        assert [NOP] + [u] == [NOP, u] && [] + [u] == [u];
      } else {
        assert Written(rows) == Written(rows[1..]);
        assert Insns(RowUnits(r, prevIm)) == [];
      }
    }
  }

  lemma PaddedOne(u: Unit, rest: seq<Unit>, prevIm: bool)
    ensures Padded([u] + rest, prevIm) == (if prevIm && IsIm(u) then [NOP, u] else [u]) + Padded(rest, IsIm(u))
  {
    assert ([u] + rest)[1..] == rest;
  }

  lemma RowInsns(r: Row, prevIm: bool)
    ensures Insns(RowUnits(r, prevIm)) == (if r.mnemonic == Some("im") && prevIm then [NOP] else [])
                                          + (if r.mnemonic.Some? then [Insn(r.mnemonic.value, r.operand)] else [])
  {
    var pad := if r.mnemonic == Some("im") && prevIm then [NOP] else [];
    var own := if r.mnemonic.Some? then [Insn(r.mnemonic.value, r.operand)] else [];
    InsnsAppend(pad + LabelUnits(r.names), own);
    InsnsAppend(pad, LabelUnits(r.names));
    NoInsns(LabelUnits(r.names));
    InsnsOne(NOP);
    InsnsOne(Insn(if r.mnemonic.Some? then r.mnemonic.value else "", r.operand));
  }

  lemma {:induction false} NoInsns(units: seq<Unit>)
    requires forall i :: 0 <= i < |units| ==> units[i].Label?
    ensures Insns(units) == []
  {
    if units != [] {
      NoInsns(units[1..]);
    }
  }

  ghost predicate Apart(r: seq<Unit>) {
    forall k :: 0 <= k < |r| - 1 ==> !(IsIm(r[k]) && IsIm(r[k + 1]))
  }

  lemma ApartCons(u: Unit, r: seq<Unit>)
    requires Apart(r) && (r != [] && IsIm(u) ==> !IsIm(r[0]))
    ensures Apart([u] + r)
  {
    var q := [u] + r;
    forall k | 0 <= k < |q| - 1
      ensures !(IsIm(q[k]) && IsIm(q[k + 1]))
    {
      assert q[k + 1] == r[k];
      if k > 0 {
        assert q[k] == r[k - 1];
      }
    }
  }

  lemma {:induction false} PaddedApart(insns: seq<Unit>, prevIm: bool)
    ensures Apart(Padded(insns, prevIm))
    ensures prevIm && Padded(insns, prevIm) != [] ==> !IsIm(Padded(insns, prevIm)[0])
  {
    hide Apart;
    if insns != [] {
      PaddedApart(insns[1..], IsIm(insns[0]));
      var rest := Padded(insns[1..], IsIm(insns[0]));
      ApartCons(insns[0], rest);
      if prevIm && IsIm(insns[0]) {
        ApartCons(NOP, [insns[0]] + rest);
        assert [NOP, insns[0]] + rest == [NOP] + ([insns[0]] + rest);
      }
    } else {
      NothingApart();
    }
  }

  lemma NothingApart()
    ensures Apart([])
  {
  }

  /** Everything assemble produces meets the conditions of the simulation. */
  lemma AssembledIsWellFormed(rows: seq<Row>, p: Program)
    requires Assembled(rows, p)
    ensures WellFormed(p) && p.insns == Padded(Written(rows), false)
  {
    hide Encoded, LabelsDenote, Padded, Apart;
    ExpansionIsPadding(rows, false);
    PaddedApart(Written(rows), false);
  }

  /** The source program as loaded into `size` bytes of memory. */
  ghost function Loaded(p: Program, size: nat): Source
    requires |p.code| <= size
  {
    Source(0, p.code + seq(size - |p.code|, i => 0), size, false)
  }

  /** Running assembled bytes from reset simulates the source program, for every run of it
      that neither overwrites the code nor jumps between instructions. */
  lemma AssemblerIsCorrect(rows: seq<Row>, p: Program, size: nat, n: nat) returns (m: nat, z': State)
    requires Assembled(rows, p) && |p.code| <= size
    requires (AssembledIsWellFormed(rows, p); SourceRun(p, Loaded(p, size), n).Some?)
    ensures WellFormed(p) && m >= n
    ensures Iterate(State(Loaded(p, size).mem, 0, size, false, false), m) == Some(z')
    ensures Represents(p, SourceRun(p, Loaded(p, size), n).value, z')
  {
    hide SourceStep, Iterate;
    AssembledIsWellFormed(rows, p);
    m, z' := RunSimulates(p, Loaded(p, size), State(Loaded(p, size).mem, 0, size, false, false), n);
  }
}
