/** The assembler's output row by row: where each row's instruction stands, what its labels
    denote, and which programs assemble at all. */
module Rows {
  import opened Words
  import opened Memory
  import opened SourceLanguage
  import opened Immediate
  import opened Assembler
  import opened Encoding
  import opened Simulation

  /** The row an instruction was written in, followed by all later rows. */
  lemma {:induction false} ExpandedSplit(rows: seq<Row>, i: nat, prevIm: bool)
    requires i <= |rows|
    ensures Expanded(rows, prevIm)
         == Expanded(rows[..i], prevIm) + Expanded(rows[i..], LastIm(Written(rows[..i]), prevIm))
    decreases i
  {
    hide RowUnits;
    if i == 0 {
      assert rows[..0] == [] && rows[0..] == rows;
      assert [] + Expanded(rows, prevIm) == Expanded(rows, prevIm);
    } else {
      var r := rows[0];
      assert rows[..i][0] == r && rows[..i][1..] == rows[1..][..i - 1] && rows[1..][i - 1..] == rows[i..];
      ExpandedSplit(rows[1..], i - 1, NextIm(r, prevIm));
      LastImNext(rows[..i], prevIm);
    }
  }

  /** Whether an instruction put behind these would follow an im. */
  function LastIm(insns: seq<Unit>, prevIm: bool): bool {
    if insns == [] then prevIm else IsIm(insns[|insns| - 1])
  }

  lemma LastImNext(rows: seq<Row>, prevIm: bool)
    requires rows != []
    ensures LastIm(Written(rows), prevIm) == LastIm(Written(rows[1..]), NextIm(rows[0], prevIm))
  {
  }

  /** How many written instructions follow an im and are im themselves. */
  function ImPairs(insns: seq<Unit>): nat {
    var n := |insns|;
    if n < 2 then 0
    else ImPairs(insns[..n - 1]) + if IsIm(insns[n - 2]) && IsIm(insns[n - 1]) then 1 else 0
  }

  /** How many instructions precede that of row i: all that is written before it, and a nop for
      every im behind an im, the row's own included. */
  function AheadOf(rows: seq<Row>, i: nat): nat
    requires i < |rows|
  {
    |Written(rows[..i])| + ImPairs(Written(rows[..i + 1]))
  }

  function Own(r: Row): seq<Unit> {
    if r.mnemonic.Some? then [Insn(r.mnemonic.value, r.operand)] else []
  }

  lemma {:induction false} WrittenSnoc(rows: seq<Row>, i: nat)
    requires i < |rows|
    ensures Written(rows[..i + 1]) == Written(rows[..i]) + Own(rows[i])
    decreases i
  {
    if i == 0 {
      assert rows[..1][1..] == [] && rows[..0] == [];
    } else {
      WrittenSnoc(rows[1..], i - 1);
      assert rows[..i + 1][1..] == rows[1..][..i] && rows[..i][1..] == rows[1..][..i - 1];
    }
  }

  lemma {:induction false} PaddedSnoc(insns: seq<Unit>, u: Unit, prevIm: bool)
    ensures Padded(insns + [u], prevIm)
         == Padded(insns, prevIm) + if LastIm(insns, prevIm) && IsIm(u) then [NOP, u] else [u]
    decreases |insns|
  {
    hide IsIm;
    if insns == [] {
      assert insns + [u] == [u] && [u][1..] == [];
    } else {
      assert (insns + [u])[1..] == insns[1..] + [u];
      PaddedSnoc(insns[1..], u, IsIm(insns[0]));
    }
  }

  /** Padding adds exactly one nop for every im behind an im. */
  lemma {:induction false} PaddedCounts(insns: seq<Unit>)
    ensures |Padded(insns, false)| == |insns| + ImPairs(insns)
    ensures forall u :: u != NOP ==> multiset(Padded(insns, false))[u] == multiset(insns)[u]
    decreases |insns|
  {
    hide IsIm, Padded;
    if insns != [] {
      var n := |insns|;
      var front := insns[..n - 1];
      assert insns == front + [insns[n - 1]];
      PaddedCounts(front);
      PaddedSnoc(front, insns[n - 1], false);
    } else {
      NothingPadded();
    }
  }

  lemma NothingPadded()
    ensures Padded([], false) == []
  {
  }

  lemma AheadCounts(rows: seq<Row>, i: nat)
    requires i < |rows|
    ensures AheadOf(rows, i) == |Padded(Written(rows[..i]), false)|
                                + |RowPad(rows[i], LastIm(Written(rows[..i]), false))|
  {
    hide Padded, Written;
    var before := Written(rows[..i]);
    WrittenSnoc(rows, i);
    PaddedCounts(before);
    if rows[i].mnemonic.Some? {
      assert (before + Own(rows[i]))[..|before|] == before;
    } else {
      assert before + Own(rows[i]) == before;
    }
  }

  /** The nop in front of an im that follows an im. */
  function RowPad(r: Row, prevIm: bool): seq<Unit> {
    if r.mnemonic == Some("im") && prevIm then [NOP] else []
  }

  lemma UnitsOfRow(r: Row, prevIm: bool)
    ensures RowUnits(r, prevIm) == RowPad(r, prevIm) + LabelUnits(r.names) + Own(r)
  {
  }

  /** The instruction of every row stands where AheadOf says, and apart from nops nothing else
      is in the program. */
  lemma InstructionsStand(rows: seq<Row>, p: Program, i: nat)
    requires Assembled(rows, p) && i < |rows| && rows[i].mnemonic.Some?
    ensures AheadOf(rows, i) < |p.insns|
    ensures p.insns[AheadOf(rows, i)] == Insn(rows[i].mnemonic.value, rows[i].operand)
    ensures |p.insns| == |Written(rows)| + ImPairs(Written(rows))
    ensures forall u :: u != NOP ==> multiset(p.insns)[u] == multiset(Written(rows))[u]
  {
    hide Encoded, Padded, Expanded, RowUnits, Written, LabelsDenote, Apart, Insns, AheadOf;
    AssembledIsWellFormed(rows, p);
    PaddedCounts(Written(rows));
    var labels := LabelUnits(rows[i].names);
    var ahead, behind := RowPlace(rows, i, labels, []);
    NoInsns(labels);
    InsnsAppend(ahead + labels, Own(rows[i]) + behind);
    InsnsAppend(ahead, labels);
    InsnsAppend(Own(rows[i]), behind);
    InsnsOne(Own(rows[i])[0]);
    assert ahead + labels + [] + Own(rows[i]) + behind == ahead + labels + (Own(rows[i]) + behind);
  }

  /** The units ahead of row i's labels and those behind its instruction. */
  lemma RowPlace(rows: seq<Row>, i: nat, a: seq<Unit>, b: seq<Unit>) returns (ahead: seq<Unit>, behind: seq<Unit>)
    requires i < |rows| && a + b == LabelUnits(rows[i].names)
    ensures Expanded(rows, false) == ahead + a + b + Own(rows[i]) + behind
    ensures |Insns(ahead)| == AheadOf(rows, i)
  {
    hide Expanded, Padded, Written, Insns, RowUnits, AheadOf, Own, LabelUnits;
    var r, prevIm := rows[i], LastIm(Written(rows[..i]), false);
    ExpandedSplit(rows, i, false);
    ExpandedFrom(rows, i, prevIm);
    ExpansionIsPadding(rows[..i], false);
    UnitsOfRow(r, prevIm);
    AheadCounts(rows, i);
    var before := Expanded(rows[..i], false);
    ahead, behind := before + RowPad(r, prevIm), Expanded(rows[i + 1..], NextIm(r, prevIm));
    InsnsAppend(before, RowPad(r, prevIm));
    PadInsns(r, prevIm);
    Regroup(before, RowPad(r, prevIm), a, b, Own(r), behind);
  }

  lemma Regroup(x: seq<Unit>, y: seq<Unit>, a: seq<Unit>, b: seq<Unit>, z: seq<Unit>, w: seq<Unit>)
    ensures x + ((y + (a + b) + z) + w) == x + y + a + b + z + w
  {
  }

  lemma PadInsns(r: Row, prevIm: bool)
    ensures Insns(RowPad(r, prevIm)) == RowPad(r, prevIm)
  {
    InsnsOne(NOP);
  }

  /** A label of a row names the row's own instruction. */
  lemma LabelsNameRows(rows: seq<Row>, p: Program, i: nat, name: string)
    requires Assembled(rows, p) && i < |rows| && name in rows[i].names
    ensures WellFormed(p) && name in p.labels && AheadOf(rows, i) <= |p.insns|
    ensures p.labels[name] == Start(p.insns, AheadOf(rows, i))
    ensures IndexAt(p, p.labels[name]) == Some(AheadOf(rows, i))
    ensures rows[i].mnemonic.Some? ==>
              AheadOf(rows, i) < |p.insns|
              && p.insns[AheadOf(rows, i)] == Insn(rows[i].mnemonic.value, rows[i].operand)
  {
    hide Encoded, IndexAt, Padded, Written, Expanded, RowUnits, Start, Apart, AheadOf, LabelUnits, Insns, Own;
    AssembledIsWellFormed(rows, p);
    if rows[i].mnemonic.Some? {
      InstructionsStand(rows, p, i);
    }
    var a, b := LabelIn(rows[i].names, name);
    var ahead, behind := RowPlace(rows, i, a, [Label(name)] + b);
    var units := Expanded(rows, false);
    var rest := [Label(name)] + b + Own(rows[i]) + behind;
    assert units == ahead + a + rest;
    assert units[..|ahead + a|] == ahead + a && units[|ahead + a|] == Label(name);
    NoInsns(a);
    InsnsAppend(ahead, a);
    assert Insns(ahead) + [] == Insns(ahead);
    InsnsAppend(ahead + a, rest);
    StartPrefix(Insns(ahead + a), Insns(rest), AheadOf(rows, i));
    IndexOfStart(p, AheadOf(rows, i));
  }

  lemma LabelIn(names: seq<string>, name: string) returns (a: seq<Unit>, b: seq<Unit>)
    requires name in names
    ensures a + ([Label(name)] + b) == LabelUnits(names)
    ensures forall k :: 0 <= k < |a| ==> a[k].Label?
  {
    var k :| 0 <= k < |names| && names[k] == name;
    var labels := LabelUnits(names);
    a, b := labels[..k], labels[k + 1..];
    assert labels == labels[..k] + ([labels[k]] + labels[k + 1..]);
  }

  lemma ExpandedFrom(rows: seq<Row>, i: nat, prevIm: bool)
    requires i < |rows|
    ensures Expanded(rows[i..], prevIm) == RowUnits(rows[i], prevIm) + Expanded(rows[i + 1..], NextIm(rows[i], prevIm))
  {
    hide RowUnits;
    assert rows[i..][0] == rows[i] && rows[i..][1..] == rows[i + 1..];
  }

  /** The labels of a program are those of its rows. */
  lemma LabelsAreTheRows(rows: seq<Row>, p: Program)
    requires Assembled(rows, p)
    ensures forall name :: name in p.labels <==> exists i :: 0 <= i < |rows| && name in rows[i].names
  {
    hide Insns, Encoded, HaveLengths, DistinctLabels, Start;
    forall name
      ensures Label(name) in Expanded(rows, false) <==> exists i :: 0 <= i < |rows| && name in rows[i].names
    {
      LabelsExpanded(rows, false, name);
    }
  }

  lemma {:induction false} LabelsExpanded(rows: seq<Row>, prevIm: bool, name: string)
    ensures Label(name) in Expanded(rows, prevIm) <==> exists i :: 0 <= i < |rows| && name in rows[i].names
    decreases |rows|
  {
    if rows != [] {
      var rest := rows[1..];
      LabelsExpanded(rest, NextIm(rows[0], prevIm), name);
      LabelsOfRow(rows[0], prevIm, name);
      hide RowUnits;
      if i :| 0 <= i < |rest| && name in rest[i].names {
        assert rows[i + 1] == rest[i];
      }
      if i :| 0 <= i < |rows| && name in rows[i].names {
        assert i > 0 ==> rest[i - 1] == rows[i];
      }
    }
  }

  lemma LabelsOfRow(r: Row, prevIm: bool, name: string)
    ensures Label(name) in RowUnits(r, prevIm) <==> name in r.names
  {
    if name in r.names {
      var a, b := LabelIn(r.names, name);
      assert LabelUnits(r.names)[|a|] == Label(name);
    }
    assert forall k :: 0 <= k < |r.names| ==> LabelUnits(r.names)[k] == Label(r.names[k]);
  }

  /** A number takes the fewest bytes that push it, a label always five. */
  lemma ImsAreShort(u: Unit, labels: map<string, nat>, b: seq<byte>)
    requires IsIm(u) && Encode(u, labels).Some?
    ensures u.operand.Symbol? ==> |Encode(u, labels).value| == 5
    ensures u.operand.Number? && IsImRun(b) && RunValue(b) == u.operand.n % 0x1_0000_0000 ==>
              |Encode(u, labels).value| <= |b|
  {
    hide RunValue, Chunks, NULLARY;
    if u.operand.Number? && IsImRun(b) && RunValue(b) == Wrap(u.operand.n) {
      MinimalRunIsShortest(u.operand.n, b);
    }
  }

  // Which programs assemble.

  /** The labels in the order written. */
  function Names(rows: seq<Row>): seq<string> {
    if rows == [] then [] else rows[0].names + Names(rows[1..])
  }

  ghost predicate Distinct(names: seq<string>) {
    forall i, j :: 0 <= i < j < |names| ==> names[i] != names[j]
  }

  /** A program assembles exactly when no label is written twice and every instruction has an
      operand it can have. */
  lemma AssemblesExactly(rows: seq<Row>)
    ensures (exists p :: Assembled(rows, p)) <==>
              Distinct(Names(rows)) && forall u :: u in Written(rows) ==> Encodable(u, Names(rows))
  {
    hide Assembled, Encodable, Expanded, Written, Names;
    var units := Expanded(rows, false);
    UnitNames(rows, false);
    LabelsApart(units);
    if p :| Assembled(rows, p) {
      AssembledEncodes(rows, p);
    }
    if Distinct(Names(rows)) && forall u :: u in Written(rows) ==> Encodable(u, Names(rows)) {
      var p := Built(rows);
    }
  }

  function LabelNames(units: seq<Unit>): seq<string> {
    if units == [] then []
    else (if units[0].Label? then [units[0].name] else []) + LabelNames(units[1..])
  }

  lemma {:induction false} LabelNamesAppend(a: seq<Unit>, b: seq<Unit>)
    ensures LabelNames(a + b) == LabelNames(a) + LabelNames(b)
    decreases |a|
  {
    if a == [] {
      assert a + b == b;
    } else {
      assert (a + b)[1..] == a[1..] + b;
      LabelNamesAppend(a[1..], b);
    }
  }

  lemma {:induction false} NamesOf(names: seq<string>)
    ensures LabelNames(LabelUnits(names)) == names
  {
    if names != [] {
      assert LabelUnits(names)[1..] == LabelUnits(names[1..]);
      NamesOf(names[1..]);
    }
  }

  lemma {:induction false} UnitNames(rows: seq<Row>, prevIm: bool)
    ensures LabelNames(Expanded(rows, prevIm)) == Names(rows)
    decreases |rows|
  {
    hide LabelNames, RowUnits;
    if rows == [] {
      NoNames();
    } else {
      LabelNamesAppend(RowUnits(rows[0], prevIm), Expanded(rows[1..], NextIm(rows[0], prevIm)));
      RowNames(rows[0], prevIm);
      UnitNames(rows[1..], NextIm(rows[0], prevIm));
    }
  }

  lemma NoNames()
    ensures LabelNames([]) == []
  {
  }

  lemma RowNames(r: Row, prevIm: bool)
    ensures LabelNames(RowUnits(r, prevIm)) == r.names
  {
    UnitsOfRow(r, prevIm);
    LabelNamesAppend(RowPad(r, prevIm) + LabelUnits(r.names), Own(r));
    LabelNamesAppend(RowPad(r, prevIm), LabelUnits(r.names));
    NamesOf(r.names);
    assert [] + r.names + [] == r.names;
  }

  lemma {:induction false} NamesAre(units: seq<Unit>)
    ensures forall name :: name in LabelNames(units) <==> Label(name) in units
  {
    if units != [] {
      NamesAre(units[1..]);
      assert forall u :: u in units <==> u == units[0] || u in units[1..];
    }
  }

  lemma {:induction false} LabelsApart(units: seq<Unit>)
    ensures DistinctLabels(units) <==> Distinct(LabelNames(units))
    decreases |units|
  {
    hide LabelNames, DistinctLabels, Distinct;
    if units == [] {
      NoneApart();
    } else {
      LabelsApart(units[1..]);
      NamesAre(units[1..]);
      FirstApart(units);
      FirstName(units);
    }
  }

  lemma NoneApart()
    ensures DistinctLabels([]) && Distinct(LabelNames([]))
  {
  }

  lemma FirstApart(units: seq<Unit>)
    requires units != []
    ensures DistinctLabels(units) <==>
              DistinctLabels(units[1..]) && (units[0].Label? ==> units[0] !in units[1..])
  {
    var rest := units[1..];
    if DistinctLabels(rest) && (units[0].Label? ==> units[0] !in rest) {
      forall i, j | 0 <= i < j < |units| && units[i].Label?
        ensures units[i] != units[j]
      {
        assert units[j] == rest[j - 1] && units[j] in rest;
        assert i > 0 ==> units[i] == rest[i - 1];
      }
    }
    if DistinctLabels(units) {
      assert forall k :: 0 <= k < |rest| ==> rest[k] == units[k + 1];
    }
  }

  lemma FirstName(units: seq<Unit>)
    requires units != []
    ensures Distinct(LabelNames(units)) <==>
              Distinct(LabelNames(units[1..])) && (units[0].Label? ==> units[0].name !in LabelNames(units[1..]))
  {
    hide Distinct;
    var rest := LabelNames(units[1..]);
    NamesFirst(units);
    hide LabelNames;
    if units[0].Label? {
      DistinctFirst(units[0].name, rest);
    }
  }

  lemma NamesFirst(units: seq<Unit>)
    requires units != []
    ensures var rest := LabelNames(units[1..]);
            LabelNames(units) == if units[0].Label? then [units[0].name] + rest else rest
  {
    hide LabelNames;
    FirstPlus(units);
    assert [] + LabelNames(units[1..]) == LabelNames(units[1..]);
  }

  lemma FirstPlus(units: seq<Unit>)
    requires units != []
    ensures LabelNames(units) == (if units[0].Label? then [units[0].name] else []) + LabelNames(units[1..])
  {
  }

  lemma DistinctFirst(name: string, rest: seq<string>)
    ensures Distinct([name] + rest) <==> Distinct(rest) && name !in rest
  {
    var all := [name] + rest;
    if Distinct(rest) && name !in rest {
      forall i, j | 0 <= i < j < |all|
        ensures all[i] != all[j]
      {
        assert all[j] == rest[j - 1] && rest[j - 1] in rest;
        assert i > 0 ==> all[i] == rest[i - 1];
      }
    }
    if Distinct(all) {
      forall i, j | 0 <= i < j < |rest|
        ensures rest[i] != rest[j]
      {
        assert all[i + 1] == rest[i] && all[j + 1] == rest[j];
      }
      forall k | 0 <= k < |rest|
        ensures rest[k] != name
      {
        assert all[0] == name && all[k + 1] == rest[k];
      }
    }
  }

  lemma NopEncodes(names: seq<string>)
    ensures Encodable(NOP, names)
  {
  }

  lemma {:induction false} UnitsWritten(rows: seq<Row>, prevIm: bool)
    ensures forall u :: u in Expanded(rows, prevIm) && u.Insn? ==> u == NOP || u in Written(rows)
    ensures forall u :: u in Written(rows) ==> u.Insn? && u in Expanded(rows, prevIm)
    decreases |rows|
  {
    if rows != [] {
      UnitsWritten(rows[1..], NextIm(rows[0], prevIm));
      UnitsOfRow(rows[0], prevIm);
      hide RowUnits;
    }
  }

  lemma AssembledEncodes(rows: seq<Row>, p: Program)
    requires Assembled(rows, p)
    ensures DistinctLabels(Expanded(rows, false))
    ensures forall u :: u in Written(rows) ==> Encodable(u, Names(rows))
  {
    hide Insns, Encode, Encodable, LabelsDenote, DistinctLabels, HaveLengths, Expanded, Encoded;
    var units := Expanded(rows, false);
    SameNames(rows, p.labels);
    UnitsWritten(rows, false);
    AllEncode(units, p.labels, p.code);
    forall u | u in Written(rows)
      ensures Encodable(u, Names(rows))
    {
      EncodesExactly(u, p.labels, Names(rows));
    }
  }

  lemma SameNames(rows: seq<Row>, labels: map<string, nat>)
    requires LabelsDenote(Expanded(rows, false), labels)
    ensures forall name :: name in labels <==> name in Names(rows)
  {
    hide Insns, Expanded, Start;
    UnitNames(rows, false);
    NamesAre(Expanded(rows, false));
  }

  /** The program that the two passes build. */
  lemma Built(rows: seq<Row>) returns (p: Program)
    requires DistinctLabels(Expanded(rows, false)) && forall u :: u in Written(rows) ==> Encodable(u, Names(rows))
    ensures Assembled(rows, p)
  {
    hide Insns, Encode, Encodable, LabelsDenote, DistinctLabels, HaveLengths, Expanded, Encoded, Length;
    var units := Expanded(rows, false);
    UnitsWritten(rows, false);
    NopEncodes(Names(rows));
    LengthsFollow(units, Names(rows));
    var labels := LabelsBuilt(units, |units|);
    assert units[..|units|] == units;
    SameNames(rows, labels);
    forall u | u in units && u.Insn?
      ensures Encode(u, labels).Some?
    {
      EncodesExactly(u, labels, Names(rows));
    }
    var code := CodeBuilt(units, labels, |units|);
    p := Program(Insns(units), labels, code);
  }

  lemma LengthsFollow(units: seq<Unit>, names: seq<string>)
    requires forall u :: u in units && u.Insn? ==> Encodable(u, names)
    ensures HaveLengths(units)
  {
    hide Chunks;
    forall i | 0 <= i < |units| && units[i].Insn?
      ensures Length(units[i]).Some?
    {
      assert Encodable(units[i], names);
      hide Encodable;
    }
  }

  lemma {:induction false} LabelsBuilt(units: seq<Unit>, n: nat) returns (labels: map<string, nat>)
    requires n <= |units| && DistinctLabels(units) && HaveLengths(units)
    ensures DistinctLabels(units[..n]) && HaveLengths(units[..n]) && LabelsDenote(units[..n], labels)
    decreases n
  {
    hide DistinctLabels, HaveLengths, LabelsDenote, Length;
    if n == 0 {
      NoLabelsYet();
      assert units[..0] == [];
      labels := map[];
    } else {
      labels := LabelsBuilt(units, n - 1);
      if !(DistinctLabels(units[..n]) && HaveLengths(units[..n])) {
        FailsEarly(units, n);
      }
      assert units[..n] == units[..n - 1] + [units[n - 1]];
      match units[n - 1] {
        case Label(name) =>
          AddLabel(units[..n - 1], name, labels);
          labels := labels[name := End(units[..n - 1])];
        case Insn(_, _) =>
          AddInsn(units[..n - 1], units[n - 1], labels);
      }
    }
  }

  lemma {:induction false} CodeBuilt(units: seq<Unit>, labels: map<string, nat>, n: nat) returns (code: seq<byte>)
    requires n <= |units| && forall u :: u in units && u.Insn? ==> Encode(u, labels).Some?
    ensures Encoded(Insns(units[..n]), labels, code)
    decreases n
  {
    hide Encode, Encoded, Insns;
    if n == 0 {
      NothingEncoded(labels);
      assert units[..0] == [];
      code := [];
    } else {
      code := CodeBuilt(units, labels, n - 1);
      InsnsNext(units, n - 1);
      if units[n - 1].Insn? {
        EncodedSnoc(Insns(units[..n - 1]), units[n - 1], labels, code, Encode(units[n - 1], labels).value);
        code := code + Encode(units[n - 1], labels).value;
      }
    }
  }
}
