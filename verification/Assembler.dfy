/** The two-pass assembler of sim/assembler.py, from tokenised rows on. */
module Assembler {
  import opened Words
  import opened Memory
  import opened SourceLanguage
  import opened Immediate

  const NULLARY: map<string, byte> := map[
    "breakpoint" := 0x00, "pushsp" := 0x02, "poppc" := 0x04, "add" := 0x05, "and" := 0x06,
    "or" := 0x07, "load" := 0x08, "not" := 0x09, "flip" := 0x0a, "nop" := 0x0b, "store" := 0x0c,
    "popsp" := 0x0d, "loadh" := 0x22, "storeh" := 0x23, "loadb" := 0x33, "storeb" := 0x34,
    "lessthan" := 0x24, "lessthanorequal" := 0x25, "ulessthan" := 0x26, "ulessthanorequal" := 0x27,
    "call" := 0x2d, "mult" := 0x29, "lshiftright" := 0x2a, "ashiftleft" := 0x2b,
    "ashiftright" := 0x2c, "eq" := 0x2e, "neq" := 0x2f, "neg" := 0x30, "sub" := 0x31,
    "xor" := 0x32, "div" := 0x35, "mod" := 0x36, "eqbranch" := 0x37, "neqbranch" := 0x38]

  function LabelUnits(names: seq<string>): (u: seq<Unit>)
    ensures |u| == |names|
  {
    seq(|names|, i requires 0 <= i < |names| => Label(names[i]))
  }

  /** What one row expands to; im after im is kept apart by a nop before the row's labels. */
  function RowUnits(r: Row, prevIm: bool): seq<Unit> {
    (if r.mnemonic == Some("im") && prevIm then [NOP] else [])
    + LabelUnits(r.names)
    + (if r.mnemonic.Some? then [Insn(r.mnemonic.value, r.operand)] else [])
  }

  function NextIm(r: Row, prevIm: bool): bool {
    if r.mnemonic.Some? then r.mnemonic.value == "im" else prevIm
  }

  /** Everything the generator yields from here on. */
  function Expanded(rows: seq<Row>, prevIm: bool): seq<Unit> {
    if rows == [] then [] else RowUnits(rows[0], prevIm) + Expanded(rows[1..], NextIm(rows[0], prevIm))
  }

  method ExpandRow(r: Row, prevIm: bool) returns (units: seq<Unit>)
    ensures units == RowUnits(r, prevIm)
  {
    units := [];
    if r.mnemonic == Some("im") && prevIm {
      units := units + [NOP];
    }
    units := units + LabelUnits(r.names);
    if r.mnemonic.Some? {
      units := units + [Insn(r.mnemonic.value, r.operand)];
    }
  }

  /** _expand, collected into a list. */
  method Expand(rows: seq<Row>) returns (units: seq<Unit>)
    ensures units == Expanded(rows, false)
  {
    hide RowUnits;
    var prevIm := false;
    units := [];
    for i := 0 to |rows|
      invariant units + Expanded(rows[i..], prevIm) == Expanded(rows, false)
    {
      assert rows[i..][1..] == rows[i + 1..] && rows[i..][0] == rows[i];
      var row := ExpandRow(rows[i], prevIm);
      units := units + row;
      prevIm := NextIm(rows[i], prevIm);
    }
  }

  /** _length: None where the assembler raises. */
  function Length(u: Unit): (n: Option<nat>)
    requires u.Insn?
    ensures n.Some? ==> n.value >= 1
  {
    if u.mnemonic == "im" then
      match u.operand
      case NoOperand => None
      case Number(n) => Some(|Chunks(Int32(n))|)
      case Symbol(_) => Some(5)
    else Some(1)
  }

  /** _offset_field */
  function OffsetField(o: Operand, limit: nat): (n: Option<nat>)
    ensures n.Some? ==> n.value * 4 <= limit
  {
    if o.Number? && 0 <= o.n <= limit && o.n % 4 == 0 then Some(o.n / 4) else None
  }

  function FlipTop(n: nat): nat { if n >= 16 then n - 16 else n + 16 }

  /** _encode: None where the assembler raises. */
  function Encode(u: Unit, labels: map<string, nat>): Option<seq<byte>>
    requires u.Insn?
  {
    if u.mnemonic == "im" then
      match u.operand
      case NoOperand => None
      case Number(n) => Some(ImBytes(Chunks(Int32(n))))
      case Symbol(name) => if name in labels then Some(ImFixed(labels[name], 5)) else None
    else if u.mnemonic == "loadsp" then
      var n :- OffsetField(u.operand, 124); Some([0x60 + FlipTop(n)])
    else if u.mnemonic == "storesp" then
      var n :- OffsetField(u.operand, 124); Some([0x40 + FlipTop(n)])
    else if u.mnemonic == "addsp" then
      var n :- OffsetField(u.operand, 60); Some([0x10 + n])
    else if u.mnemonic == "emulate" then
      if u.operand.Number? && 0 <= u.operand.n <= 31 then Some([0x20 + u.operand.n]) else None
    else if u.mnemonic in NULLARY && u.operand == NoOperand then Some([NULLARY[u.mnemonic]])
    else None
  }

  /** The two passes agree on how long every instruction is. */
  lemma EncodeLength(u: Unit, labels: map<string, nat>)
    requires u.Insn? && Encode(u, labels).Some?
    ensures Length(u) == Some(|Encode(u, labels).value|)
    ensures IsIm(u) ==> IsImRun(Encode(u, labels).value)
    ensures !IsIm(u) ==> |Encode(u, labels).value| == 1 && Encode(u, labels).value[0] < 0x80
  {
    OpcodesLow();
    hide NULLARY, FlipTop, Chunks;
    if !IsIm(u) && u.operand.Number? {
      FlipFits(u.operand.n / 4);
    }
  }

  lemma OpcodesLow()
    ensures forall name :: name in NULLARY ==> NULLARY[name] < 0x40
  {
  }

  lemma FlipFits(n: int)
    ensures 0 <= n < 32 ==> FlipTop(n) < 32
  {
  }

  function Insns(units: seq<Unit>): (r: seq<Unit>)
    ensures forall i :: 0 <= i < |r| ==> r[i].Insn?
  {
    if units == [] then []
    else (if units[0].Insn? then [units[0]] else []) + Insns(units[1..])
  }

  lemma {:induction false} InsnsAppend(a: seq<Unit>, b: seq<Unit>)
    ensures Insns(a + b) == Insns(a) + Insns(b)
    decreases |a|
  {
    if a == [] {
      assert a + b == b;
    } else {
      assert (a + b)[1..] == a[1..] + b;
      InsnsAppend(a[1..], b);
    }
  }

  /** Where instruction i starts: the sum of the lengths before it. */
  ghost function Start(insns: seq<Unit>, i: nat): nat
    requires i <= |insns| && forall k :: 0 <= k < |insns| ==> insns[k].Insn?
    decreases i
  {
    if i == 0 then 0
    else Start(insns, i - 1) + (if Length(insns[i - 1]).Some? then Length(insns[i - 1]).value else 1)
  }

  lemma {:induction false} StartIncreases(insns: seq<Unit>, i: nat, j: nat)
    requires i < j <= |insns| && forall k :: 0 <= k < |insns| ==> insns[k].Insn?
    ensures Start(insns, i) < Start(insns, j)
    decreases j
  {
    if i < j - 1 {
      StartIncreases(insns, i, j - 1);
    }
  }

  lemma {:induction false} StartPrefix(a: seq<Unit>, b: seq<Unit>, i: nat)
    requires i <= |a| && (forall k :: 0 <= k < |a| ==> a[k].Insn?) && forall k :: 0 <= k < |b| ==> b[k].Insn?
    ensures Start(a, i) == Start(a + b, i)
    decreases i
  {
    if i > 0 {
      StartPrefix(a, b, i - 1);
      assert (a + b)[i - 1] == a[i - 1];
    }
  }

  lemma StartSnoc(a: seq<Unit>, u: Unit)
    requires u.Insn? && Length(u).Some? && forall k :: 0 <= k < |a| ==> a[k].Insn?
    ensures Start(a + [u], |a| + 1) == Start(a, |a|) + Length(u).value
  {
    StartPrefix(a, [u], |a|);
    assert (a + [u])[|a|] == u;
  }

  /** Each label denotes the offset of the unit it stands before. */
  ghost predicate LabelsDenote(units: seq<Unit>, labels: map<string, nat>) {
    && (forall name :: name in labels <==> Label(name) in units)
    && forall i :: 0 <= i < |units| && units[i].Label? ==>
         labels[units[i].name] == Start(Insns(units[..i]), |Insns(units[..i])|)
  }

  ghost predicate DistinctLabels(units: seq<Unit>) {
    forall i, j :: 0 <= i < j < |units| && units[i].Label? ==> units[i] != units[j]
  }

  ghost predicate HaveLengths(units: seq<Unit>) {
    forall i :: 0 <= i < |units| && units[i].Insn? ==> Length(units[i]).Some?
  }

  ghost function End(units: seq<Unit>): nat {
    Start(Insns(units), |Insns(units)|)
  }

  lemma PrefixOfSnoc(units: seq<Unit>, u: Unit)
    ensures forall k :: 0 <= k <= |units| ==> (units + [u])[..k] == units[..k]
  {
  }

  lemma AddLabel(units: seq<Unit>, name: string, labels: map<string, nat>)
    requires LabelsDenote(units, labels) && DistinctLabels(units)
    ensures var after := units + [Label(name)];
            if name in labels then !DistinctLabels(after)
            else DistinctLabels(after) && LabelsDenote(after, labels[name := End(units)])
    ensures End(units + [Label(name)]) == End(units)
    ensures HaveLengths(units) ==> HaveLengths(units + [Label(name)])
  {
    hide Insns, Start, Length, LabelsDenote, DistinctLabels;
    InsnsAppend(units, [Label(name)]);
    InsnsOne(Label(name));
    assert Insns(units) + [] == Insns(units);
    if name in labels {
      OldLabel(units, name, labels);
    } else {
      NewLabel(units, name, labels);
    }
  }

  lemma OldLabel(units: seq<Unit>, name: string, labels: map<string, nat>)
    requires LabelsDenote(units, labels) && name in labels
    ensures !DistinctLabels(units + [Label(name)])
  {
    hide Insns, Start;
    var after := units + [Label(name)];
    var k :| 0 <= k < |units| && units[k] == Label(name);
    assert after[k] == after[|units|];
  }

  lemma NewLabel(units: seq<Unit>, name: string, labels: map<string, nat>)
    requires LabelsDenote(units, labels) && DistinctLabels(units) && name !in labels
    ensures DistinctLabels(units + [Label(name)]) && LabelsDenote(units + [Label(name)], labels[name := End(units)])
  {
    hide Insns, Start;
    var after := units + [Label(name)];
    PrefixOfSnoc(units, Label(name));
    assert forall n :: Label(n) in after <==> Label(n) in units || n == name;
    assert Label(name) !in units;
  }

  lemma InsnsOne(u: Unit)
    ensures Insns([u]) == if u.Insn? then [u] else []
  {
    assert Insns([]) == [];
  }

  lemma AddInsn(units: seq<Unit>, u: Unit, labels: map<string, nat>)
    requires LabelsDenote(units, labels) && DistinctLabels(units) && HaveLengths(units) && u.Insn?
    ensures DistinctLabels(units + [u]) && LabelsDenote(units + [u], labels)
    ensures HaveLengths(units + [u]) <==> Length(u).Some?
    ensures Length(u).Some? ==> End(units + [u]) == End(units) + Length(u).value
  {
    hide Insns, Start, Length;
    var after := units + [u];
    InsnsAppend(units, [u]);
    InsnsOne(u);
    PrefixOfSnoc(units, u);
    assert after[|units|] == u;
    if Length(u).Some? {
      StartSnoc(Insns(units), u);
    }
    assert forall name :: Label(name) in after <==> Label(name) in units;
  }

  lemma NoLabelsYet()
    ensures DistinctLabels([]) && HaveLengths([]) && LabelsDenote([], map[]) && End([]) == 0
  {
  }

  lemma FailsEarly(units: seq<Unit>, i: nat)
    requires i <= |units| && !(DistinctLabels(units[..i]) && HaveLengths(units[..i]))
    ensures !(DistinctLabels(units) && HaveLengths(units))
  {
  }

  /** _resolve fails exactly on a repeated label or an im without operand. */
  method Resolve(units: seq<Unit>) returns (r: Option<map<string, nat>>)
    ensures r.Some? <==> DistinctLabels(units) && HaveLengths(units)
    ensures r.Some? ==> LabelsDenote(units, r.value)
  {
    hide Length, End, LabelsDenote, DistinctLabels, HaveLengths;
    var labels: map<string, nat> := map[];
    var addr := 0;
    NoLabelsYet();
    assert units[..0] == [];
    for i := 0 to |units|
      invariant DistinctLabels(units[..i]) && HaveLengths(units[..i])
      invariant LabelsDenote(units[..i], labels)
      invariant addr == End(units[..i])
    {
      assert units[..i + 1] == units[..i] + [units[i]];
      match units[i] {
        case Label(name) =>
          AddLabel(units[..i], name, labels);
          if name in labels {
            FailsEarly(units, i + 1);
            return None;
          }
          labels := labels[name := addr];
        case Insn(_, _) =>
          AddInsn(units[..i], units[i], labels);
          var n := Length(units[i]);
          if n.None? {
            FailsEarly(units, i + 1);
            return None;
          }
          addr := addr + n.value;
      }
    }
    assert units[..|units|] == units;
    r := Some(labels);
  }

  /** The bytes of every instruction, each where Start says. */
  ghost predicate Encoded(insns: seq<Unit>, labels: map<string, nat>, code: seq<byte>)
    requires forall k :: 0 <= k < |insns| ==> insns[k].Insn?
  {
    && |code| == Start(insns, |insns|)
    && forall i :: 0 <= i < |insns| ==>
         Encode(insns[i], labels).Some? && CodeAt(code, Start(insns, i), Encode(insns[i], labels).value)
  }

  lemma EncodedSnoc(insns: seq<Unit>, u: Unit, labels: map<string, nat>, code: seq<byte>, b: seq<byte>)
    requires (forall k :: 0 <= k < |insns| ==> insns[k].Insn?) && u.Insn?
    requires Encoded(insns, labels, code) && Encode(u, labels) == Some(b)
    ensures Encoded(insns + [u], labels, code + b)
  {
    hide Encode, Length, CodeAt, Start;
    EncodeLength(u, labels);
    StartSnoc(insns, u);
    var all := insns + [u];
    forall i | 0 <= i < |all|
      ensures Encode(all[i], labels).Some? && CodeAt(code + b, Start(all, i), Encode(all[i], labels).value)
    {
      StartPrefix(insns, [u], if i < |insns| then i else |insns|);
      if i < |insns| {
        assert all[i] == insns[i];
        CodeExtends(code, b, Start(insns, i), Encode(insns[i], labels).value);
      } else {
        CodeExtends(code, b, 0, []);
      }
    }
  }

  lemma CodeExtends(code: seq<byte>, b: seq<byte>, a: int, x: seq<byte>)
    ensures CodeAt(code, a, x) ==> CodeAt(code + b, a, x)
    ensures CodeAt(code + b, |code|, b)
  {
  }

  /** The second pass: it fails exactly when some instruction cannot be encoded. */
  method Emit(units: seq<Unit>, labels: map<string, nat>) returns (r: Option<seq<byte>>)
    ensures r.Some? <==> forall u :: u in units && u.Insn? ==> Encode(u, labels).Some?
    ensures r.Some? ==> Encoded(Insns(units), labels, r.value)
  {
    hide Encode, Length, Encoded, Insns, Start;
    var out: seq<byte> := [];
    NothingEncoded(labels);
    assert units[..0] == [];
    for i := 0 to |units|
      invariant forall k :: 0 <= k < i && units[k].Insn? ==> Encode(units[k], labels).Some?
      invariant Encoded(Insns(units[..i]), labels, out)
    {
      InsnsNext(units, i);
      if units[i].Insn? {
        var b := Encode(units[i], labels);
        if b.None? {
          return None;
        }
        EncodedSnoc(Insns(units[..i]), units[i], labels, out, b.value);
        out := out + b.value;
      }
    }
    assert units[..|units|] == units;
    r := Some(out);
  }

  lemma InsnsNext(units: seq<Unit>, i: nat)
    requires i < |units|
    ensures Insns(units[..i + 1]) == if units[i].Insn? then Insns(units[..i]) + [units[i]] else Insns(units[..i])
  {
    hide Insns;
    assert units[..i + 1] == units[..i] + [units[i]];
    InsnsAppend(units[..i], [units[i]]);
    InsnsOne(units[i]);
    assert Insns(units[..i]) + [] == Insns(units[..i]);
  }

  lemma NothingEncoded(labels: map<string, nat>)
    ensures Insns([]) == [] && Encoded([], labels, [])
  {
  }

  /** What assemble returns: the program's instructions, the meaning of its labels, its bytes. */
  datatype Program = Program(insns: seq<Unit>, labels: map<string, nat>, code: seq<byte>)

  ghost predicate Assembled(rows: seq<Row>, p: Program) {
    var units := Expanded(rows, false);
    && p.insns == Insns(units)
    && DistinctLabels(units) && HaveLengths(units) && LabelsDenote(units, p.labels)
    && Encoded(p.insns, p.labels, p.code)
  }

  /** assemble */
  method Assemble(rows: seq<Row>) returns (r: Option<seq<byte>>, ghost p: Program)
    ensures r.Some? ==> Assembled(rows, p) && r.value == p.code
    ensures r.None? ==> !exists q :: Assembled(rows, q)
  {
    hide Insns, Encode, Start, Length, LabelsDenote, CodeAt;
    p := Program([], map[], []);
    var units := Expand(rows);
    var labels := Resolve(units);
    if labels.None? {
      return None, p;
    }
    r := Emit(units, labels.value);
    if r.Some? {
      p := Program(Insns(units), labels.value, r.value);
    } else {
      forall q | Assembled(rows, q)
        ensures false
      {
        LabelsUnique(units, labels.value, q.labels);
        AllEncode(units, q.labels, q.code);
      }
    }
  }

  lemma LabelsUnique(units: seq<Unit>, l: map<string, nat>, m: map<string, nat>)
    requires LabelsDenote(units, l) && LabelsDenote(units, m)
    ensures l == m
  {
    hide Insns, Start;
    forall name | name in l
      ensures name in m && l[name] == m[name]
    {
      var i :| 0 <= i < |units| && units[i] == Label(name);
    }
  }

  lemma AllEncode(units: seq<Unit>, labels: map<string, nat>, code: seq<byte>)
    requires Encoded(Insns(units), labels, code)
    ensures forall u :: u in units && u.Insn? ==> Encode(u, labels).Some?
  {
    hide Encode;
    InsnsComplete(units);
  }

  lemma {:induction false} InsnsComplete(units: seq<Unit>)
    ensures forall u :: u in units && u.Insn? ==> u in Insns(units)
  {
    if units != [] {
      InsnsComplete(units[1..]);
    }
  }
}
