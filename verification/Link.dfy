/** link of linker/zpld.py: two layouts around one trampoline, and what running the image does. */
module Link {
  import opened Words
  import opened Memory
  import opened ZpuMachine
  import opened Immediate
  import opened Linker
  import opened Relocation
  import opened Trampoline

  /** The image and globals of a link with an entry point; None where the linker raises. */
  function LinkedEntry(objs: seq<Obj>, entry: string): Option<(seq<byte>, map<string, nat>)> {
    var (_, unshifted) :- Linked(objs, 0);
    if entry !in unshifted || Oscillates(unshifted[entry]) then None
    else
      var length := Settled(unshifted[entry]);
      var (image, g) :- Linked(objs, length);
      Some((Code(unshifted[entry], length) + image, g))
  }

  /** link */
  method LinkProgram(objs: seq<Obj>, entry: Option<string>) returns (r: Option<(seq<byte>, map<string, nat>)>)
    ensures r == if entry.None? then Linked(objs, 0) else LinkedEntry(objs, entry.value)
  {
    hide Linked, Oscillates, Settled, Code;
    var unshifted := LayoutAndResolve(objs, 0);
    if entry.None? || unshifted.None? {
      return unshifted;
    }
    if entry.value !in unshifted.value.1 {
      return None;
    }
    var trampoline := EntryTrampoline(unshifted.value.1[entry.value]);
    if trampoline.None? {
      return None;
    }
    var shifted := LayoutAndResolve(objs, |trampoline.value|);
    if shifted.None? {
      return None;
    }
    r := Some((trampoline.value + shifted.value.0, shifted.value.1));
  }

  /** Linking at a base that every alignment divides shifts every global and no section's offset. */
  lemma LinkShifts(objs: seq<Obj>, base: nat)
    requires Divides(objs, base, LayoutOrder(objs))
    requires Linked(objs, 0).Some? && Linked(objs, base).Some?
    ensures |Linked(objs, base).value.0| == |Linked(objs, 0).value.0|
    ensures var g, h := Linked(objs, 0).value.1, Linked(objs, base).value.1;
            (forall n :: n in h <==> n in g) && forall n :: n in g ==> h[n] == g[n] + base
  {
    hide LayoutOrder, SymbolKeys, RelaKeys, Place, Globals, Alignment;
    PlaceShifts(objs, base, LayoutOrder(objs));
    GlobalsShift(objs, Place(objs, 0, LayoutOrder(objs)).placed, Place(objs, base, LayoutOrder(objs)).placed,
                 base, SymbolKeys(objs));
  }

  /** Laid out at base, every relocation's window ends inside the image. */
  ghost predicate WindowsFit(objs: seq<Obj>, base: nat) {
    var p := Place(objs, base, LayoutOrder(objs));
    forall k :: k in RelaKeys(objs) && IsRela(objs, k) && (k.0, Rel(objs, k).applies) in p.placed ==>
      WindowAt(objs, base, p.placed, k) + 5 <= |p.image|
  }

  /** Inputs that link at 0 link at another base if and only if the windows fit there. */
  lemma LinkSucceeds(objs: seq<Obj>, base: nat)
    requires Linked(objs, 0).Some?
    ensures Linked(objs, base).Some? <==> WindowsFit(objs, base)
  {
    hide LayoutOrder, SymbolKeys, RelaKeys, Place, Globals, Resolve, Applicable;
    var order := LayoutOrder(objs);
    var p, q := Place(objs, 0, order), Place(objs, base, order);
    PlacesExactly(objs, 0, order);
    PlacesExactly(objs, base, order);
    GlobalsSameNames(objs, p.placed, q.placed, SymbolKeys(objs));
    var g, h := Globals(objs, p.placed, SymbolKeys(objs)), Globals(objs, q.placed, SymbolKeys(objs));
    PatchAllSucceeds(objs, 0, p.placed, g.value, RelaKeys(objs), p.image);
    PatchAllSucceeds(objs, base, q.placed, h.value, RelaKeys(objs), q.image);
    forall k | k in RelaKeys(objs)
      ensures Applicable(objs, base, q.placed, h.value, |q.image|, k)
         <==> (k.0, Rel(objs, k).applies) in q.placed && WindowAt(objs, base, q.placed, k) + 5 <= |q.image|
      ensures (k.0, Rel(objs, k).applies) in q.placed
    {
      ApplicableThere(objs, 0, g.value, base, h.value, k);
    }
  }

  /** Whether a relocation is applicable at another base is only a matter of its window. */
  lemma ApplicableThere(objs: seq<Obj>, base: nat, g: map<string, nat>, base': nat, h: map<string, nat>, k: Key)
    requires IsRela(objs, k) && forall n :: n in h <==> n in g
    requires var p := Place(objs, base, LayoutOrder(objs)); Applicable(objs, base, p.placed, g, |p.image|, k)
    ensures var q := Place(objs, base', LayoutOrder(objs));
            && (k.0, Rel(objs, k).applies) in q.placed
            && (Applicable(objs, base', q.placed, h, |q.image|, k) <==>
                  WindowAt(objs, base', q.placed, k) + 5 <= |q.image|)
  {
    hide LayoutOrder, Place, RelaKeys;
    var p, q := Place(objs, base, LayoutOrder(objs)), Place(objs, base', LayoutOrder(objs));
    PlacesExactly(objs, base, LayoutOrder(objs));
    PlacesExactly(objs, base', LayoutOrder(objs));
    assert Resolve(objs, p.placed, g, k.0, Rel(objs, k).sym).Some? <==> Resolve(objs, q.placed, h, k.0, Rel(objs, k).sym).Some?;
    hide Resolve;
    WindowStarts(objs, base', k);
  }

  lemma WindowStarts(objs: seq<Obj>, base: nat, k: Key)
    requires IsRela(objs, k) && (k.0, Rel(objs, k).applies) in LayoutOrder(objs)
    ensures var p := Place(objs, base, LayoutOrder(objs));
            && (k.0, Rel(objs, k).applies) in p.placed && 0 <= WindowAt(objs, base, p.placed, k)
            && p.placed[(k.0, Rel(objs, k).applies)] - base + SizeOf(objs, (k.0, Rel(objs, k).applies)) <= |p.image|
  {
    hide LayoutOrder, Place, Alignment, InOrder, GapsZero, CodeAt, RelaKeys;
    var p, x := Place(objs, base, LayoutOrder(objs)), (k.0, Rel(objs, k).applies);
    PlaceLaysOut(objs, base, LayoutOrder(objs));
    assert SectionAt(objs, base, p, x);
    AtInside(p.image, p.placed[x] - base, Sec(objs, x).bytes);
  }

  /** Windows fit at any base when each lies in its own section, and at a base that every
      alignment divides when they fit at 0. */
  lemma WindowsFitThere(objs: seq<Obj>, base: nat)
    requires WindowsInside(objs) || (Divides(objs, base, LayoutOrder(objs)) && WindowsFit(objs, 0))
    ensures WindowsFit(objs, base)
  {
    hide LayoutOrder, RelaKeys, Place, Alignment;
    var order := LayoutOrder(objs);
    var p, q := Place(objs, 0, order), Place(objs, base, order);
    PlacesExactly(objs, base, order);
    forall k | k in RelaKeys(objs) && IsRela(objs, k) && (k.0, Rel(objs, k).applies) in q.placed
      ensures WindowAt(objs, base, q.placed, k) + 5 <= |q.image|
    {
      if WindowsInside(objs) {
        WindowStarts(objs, base, k);
      } else {
        PlaceShifts(objs, base, order);
      }
    }
  }

  /** Every relocation's window lies in the section it is for. */
  ghost predicate WindowsInside(objs: seq<Obj>) {
    forall k :: k in RelaKeys(objs) && IsSection(objs, (k.0, Rel(objs, k).applies)) ==>
      Rel(objs, k).offset + 5 <= SizeOf(objs, (k.0, Rel(objs, k).applies))
  }

  /** Whatever links at 0 and defines the entry links behind a trampoline if and only if the
      entry is none of the four addresses that have none and the windows fit behind it. */
  lemma EntryLinks(objs: seq<Obj>, entry: string)
    requires Linked(objs, 0).Some? && entry in Linked(objs, 0).value.1
    ensures var at := Linked(objs, 0).value.1[entry];
            LinkedEntry(objs, entry).Some? <==> !Oscillates(at) && WindowsFit(objs, Settled(at))
  {
    hide Linked, Oscillates, Settled, Code, WindowsFit;
    LinkSucceeds(objs, Settled(Linked(objs, 0).value.1[entry]));
  }

  /** Symbol x defines the global, in the i-th section laid out. */
  ghost predicate DefinedBy(objs: seq<Obj>, name: string, x: Key, i: nat) {
    && IsSymbol(objs, x) && Sym(objs, x).global && Sym(objs, x).name == name && Sym(objs, x).section != 0
    && i < |LayoutOrder(objs)| && LayoutOrder(objs)[i] == (x.0, Sym(objs, x).section)
  }

  /** Every global has a definition, and its address is that of the definition. */
  lemma GlobalIsDefined(objs: seq<Obj>, base: nat, name: string) returns (x: Key, i: nat)
    requires Linked(objs, base).Some? && name in Linked(objs, base).value.1
    ensures DefinedBy(objs, name, x, i)
  {
    hide LayoutOrder, SymbolKeys, RelaKeys, Place, PatchAll, Globals;
    var p := Place(objs, base, LayoutOrder(objs));
    GlobalsCorrect(objs, p.placed, SymbolKeys(objs));
    x :| x in SymbolKeys(objs) && IsSymbol(objs, x) && IsExport(objs, p.placed, x) && Sym(objs, x).name == name;
    PlacesExactly(objs, base, LayoutOrder(objs));
    i :| 0 <= i < |LayoutOrder(objs)| && LayoutOrder(objs)[i] == (x.0, Sym(objs, x).section);
  }

  lemma GlobalIsAt(objs: seq<Obj>, base: nat, name: string, x: Key, i: nat)
    requires Linked(objs, base).Some? && DefinedBy(objs, name, x, i)
    ensures name in Linked(objs, base).value.1
    ensures var p := Place(objs, base, LayoutOrder(objs)).placed;
            LayoutOrder(objs)[i] in p
            && Linked(objs, base).value.1[name] == p[LayoutOrder(objs)[i]] + Sym(objs, x).value
  {
    hide LayoutOrder, SymbolKeys, RelaKeys, Place, PatchAll, Globals;
    var p := Place(objs, base, LayoutOrder(objs));
    GlobalsCorrect(objs, p.placed, SymbolKeys(objs));
    PlacesExactly(objs, base, LayoutOrder(objs));
    assert x in SymbolKeys(objs) && IsExport(objs, p.placed, x);
  }

  /** A global moves by base when its section's alignment and those of the sections before it
      divide base, and only when its own section's does; where of any two alignments one
      divides the other, exactly when they all do. */
  lemma GlobalMoves(objs: seq<Obj>, base: nat, name: string, x: Key, i: nat)
    requires Linked(objs, 0).Some? && Linked(objs, base).Some? && DefinedBy(objs, name, x, i)
    ensures var g, h, order := Linked(objs, 0).value.1, Linked(objs, base).value.1, LayoutOrder(objs);
            && name in g && name in h
            && (Divides(objs, base, order[..i + 1]) ==> h[name] == g[name] + base)
            && (h[name] == g[name] + base && Sec(objs, order[i]).alignField > 0 ==>
                  base % Sec(objs, order[i]).alignField == 0)
            && (Chained(objs, order[..i + 1]) ==> (h[name] == g[name] + base <==> Divides(objs, base, order[..i + 1])))
  {
    hide LayoutOrder, Linked, Place, Alignment, Divides, Chained, LaidOut;
    var order := LayoutOrder(objs);
    GlobalIsAt(objs, 0, name, x, i);
    GlobalIsAt(objs, base, name, x, i);
    PlaceLaysOut(objs, 0, order);
    PlaceLaysOut(objs, base, order);
    AlignedBoth(objs, base, order, order[i]);
    AlignmentIsField(Sec(objs, order[i]), base);
    if Divides(objs, base, order[..i + 1]) {
      ShiftsUpTo(objs, base, order, i);
    }
    if Chained(objs, order[..i + 1]) {
      MovesByBase(objs, base, order, i);
    }
  }

  /** What running a linked image from reset does, whatever the alignments: stepping reaches
      exactly the address the entry had in the first layout plus the trampoline's length, with
      the return address twice on the stack above a zero result slot, a breakpoint at the
      return address, and the image untouched. */
  lemma LinkedImageEnters(objs: seq<Obj>, entry: string, image: seq<byte>, g: map<string, nat>, s: State)
    returns (n: nat, t: State)
    requires LinkedEntry(objs, entry) == Some((image, g))
    requires s.pc == 0 && !s.prevIm && CodeAt(s.mem, 0, image)
    requires |image| <= Align(s.sp - 12) && Align(s.sp - 4) + 4 <= |s.mem|
    ensures Iterate(s, n) == Some(t)
    ensures entry in g && Linked(objs, 0).Some? && entry in Linked(objs, 0).value.1
    ensures var at := Linked(objs, 0).value.1[entry];
            && ReturnOffset(at, Settled(at)) < Settled(at)
            && Entered(s, t, Wrap(at + Settled(at)), ReturnOffset(at, Settled(at)))
    ensures |t.mem| == |s.mem| && CodeAt(t.mem, 0, image)
  {
    hide Linked, Code, Iterate, CodeAt, Settled, Oscillates, Entered, DefinedBy, Place, LayoutOrder, ReturnOffset,
      Total, Unpadded, Attempt;
    var address := Linked(objs, 0).value.1[entry];
    var length := Settled(address);
    var x, i := GlobalIsDefined(objs, 0, entry);
    GlobalIsAt(objs, length, entry, x, i);
    CodeParts(s.mem, 0, Code(address, length), Linked(objs, length).value.0);
    CodeLength(address, length);
    n, t := TrampolineRuns(s, address, length);
    EnteredKeepsCode(s, t, Wrap(address + length), ReturnOffset(address, length), image);
  }

  lemma EnteredKeepsCode(s: State, t: State, target: word, ret: nat, image: seq<byte>)
    requires Entered(s, t, target, ret) && CodeAt(s.mem, 0, image) && |image| <= Align(s.sp - 12)
    ensures |t.mem| == |s.mem| && CodeAt(t.mem, 0, image)
  {
  }

  /** What is in the file: the trampoline, and behind it every section at its address and every
      relocation's window, all counted from the start of the file. */
  lemma EntryImage(objs: seq<Obj>, entry: string, image: seq<byte>, g: map<string, nat>) returns (at: nat)
    requires LinkedEntry(objs, entry) == Some((image, g))
    ensures Linked(objs, 0).Some? && entry in Linked(objs, 0).value.1 && at == Linked(objs, 0).value.1[entry]
    ensures !Oscillates(at) && |image| >= Settled(at) && image[..Settled(at)] == Code(at, Settled(at))
    ensures var order := LayoutOrder(objs);
            var p := Place(objs, Settled(at), order);
            && LaidOut(objs, Settled(at), order, p) && |image| == Settled(at) + |p.image|
            && (forall k :: k in order ==> Holds(objs, p.placed, image, k))
            && (forall k :: IsRela(objs, k) ==> (k.0, Rel(objs, k).applies) in p.placed)
            && (forall k :: IsRela(objs, k) && Last(objs, 0, p.placed, k) ==> WindowMeans(objs, 0, p.placed, image, k))
  {
    hide Linked, Code, Settled, Oscillates, Place, LayoutOrder, LaidOut, RelaKeys, WindowMeans, Holds, GlobalsMean,
      Last, Clash;
    at := Linked(objs, 0).value.1[entry];
    var length := Settled(at);
    var rest := Linked(objs, length).value.0;
    var p := Place(objs, length, LayoutOrder(objs));
    CodeLength(at, length);
    LinkedImage(objs, length, rest, g);
    assert image[..length] == Code(at, length) && image[length..] == rest;
    forall k | k in LayoutOrder(objs)
      ensures Holds(objs, p.placed, image, k)
    {
      HoldsBehind(objs, length, p, rest, image, k);
    }
    forall k | IsRela(objs, k) && Last(objs, 0, p.placed, k)
      ensures WindowMeans(objs, 0, p.placed, image, k)
    {
      LastBehind(objs, length, p.placed, k);
      MeansBehind(objs, length, p.placed, rest, image, k);
    }
  }

  /** Outside the windows the bytes from the section's address on are its own. */
  ghost predicate Holds(objs: seq<Obj>, placed: map<Key, nat>, image: seq<byte>, k: Key) {
    && IsSection(objs, k) && k in placed && placed[k] + SizeOf(objs, k) <= |image|
    && forall o :: 0 <= o < SizeOf(objs, k) ==>
         image[placed[k] + o] == Sec(objs, k).bytes[o] || Covered(objs, placed, placed[k] + o)
  }

  /** Some relocation's window covers the address. */
  ghost predicate Covered(objs: seq<Obj>, placed: map<Key, nat>, a: int) {
    exists x :: InWindow(objs, 0, placed, x, a)
  }

  lemma HoldsBehind(objs: seq<Obj>, base: nat, p: Placement, rest: seq<byte>, image: seq<byte>, k: Key)
    requires LaidOut(objs, base, LayoutOrder(objs), p) && k in LayoutOrder(objs)
    requires |rest| == |p.image| && |image| == base + |rest| && image[base..] == rest
    requires forall a :: 0 <= a < |rest| ==> rest[a] == p.image[a] || exists x :: InWindow(objs, base, p.placed, x, a)
    ensures Holds(objs, p.placed, image, k)
  {
    hide LayoutOrder, InOrder, Tight, GapsZero;
    assert SectionAt(objs, base, p, k);
    var from, bytes := p.placed[k] - base, Sec(objs, k).bytes;
    AtInside(p.image, from, bytes);
    forall o | 0 <= o < |bytes|
      ensures image[p.placed[k] + o] == bytes[o] || Covered(objs, p.placed, p.placed[k] + o)
    {
      assert image[p.placed[k] + o] == rest[from + o] && p.image[from + o] == bytes[o];
      if rest[from + o] != p.image[from + o] {
        var x :| InWindow(objs, base, p.placed, x, from + o);
        assert InWindow(objs, 0, p.placed, x, p.placed[k] + o);
      }
    }
  }

  lemma LastBehind(objs: seq<Obj>, base: nat, placed: map<Key, nat>, k: Key)
    requires Last(objs, 0, placed, k)
    ensures Last(objs, base, placed, k)
  {
    forall x, a | Before(k, x) && InWindow(objs, base, placed, x, a)
      ensures !InWindow(objs, base, placed, k, a)
    {
      assert InWindow(objs, 0, placed, x, a + base);
    }
  }

  lemma MeansBehind(objs: seq<Obj>, base: nat, placed: map<Key, nat>, rest: seq<byte>, image: seq<byte>, k: Key)
    requires IsRela(objs, k) && (k.0, Rel(objs, k).applies) in placed && WindowMeans(objs, base, placed, rest, k)
    requires |image| == base + |rest| && image[base..] == rest
    ensures WindowMeans(objs, 0, placed, image, k)
  {
    hide Refers, IsImRun, RunValue;
    forall x | Refers(objs, placed, k, x)
      ensures DecodesAt(objs, 0, placed, image, k, x)
    {
      assert DecodesAt(objs, base, placed, rest, k, x);
    }
  }

  /** The address reached is the entry's own final one if the alignments of the sections up to
      and including the entry's divide the trampoline's length; where of any two of those
      alignments one divides the other, it is so exactly then. */
  lemma TrampolineHitsEntry(objs: seq<Obj>, entry: string, image: seq<byte>, g: map<string, nat>, x: Key, i: nat)
    requires LinkedEntry(objs, entry) == Some((image, g)) && DefinedBy(objs, entry, x, i)
    ensures entry in g && Linked(objs, 0).Some? && entry in Linked(objs, 0).value.1
    ensures var at, order := Linked(objs, 0).value.1[entry], LayoutOrder(objs);
            && (Divides(objs, Settled(at), order[..i + 1]) ==> g[entry] == at + Settled(at))
            && (Chained(objs, order[..i + 1]) ==>
                  (g[entry] == at + Settled(at) <==> Divides(objs, Settled(at), order[..i + 1])))
  {
    hide Linked, Settled, Oscillates, Divides, Chained, LayoutOrder, Code, DefinedBy;
    GlobalMoves(objs, Settled(Linked(objs, 0).value.1[entry]), entry, x, i);
  }

  /** One object with a .text aligned to 8 that defines main. */
  function OneText(bytes: seq<byte>, value: nat): seq<Obj> {
    [Obj([Section("", false, 0, []), Section(".text", true, 8, bytes)], [Symbol("main", value, true, 1)], [])]
  }

  /** Where it fails: behind a 12-byte trampoline such a .text is placed at 16, so that main is
      at value + 16, and the trampoline jumps to value + 12, for any value from 8K to 2G. */
  lemma TrampolineMisses(bytes: seq<byte>, value: nat)
    requires 0x2000 <= value < 0x7fff_fff0
    ensures Settled(value) == 12 && Linked(OneText(bytes, value), 0) == Some((bytes, map["main" := value]))
    ensures LinkedEntry(OneText(bytes, value), "main")
         == Some((Code(value, 12) + ([0, 0, 0, 0] + bytes), map["main" := value + 16]))
  {
    hide Settled, Oscillates, Code, Linked, OneText, LinkedEntry;
    FarEntry(value);
    Misplaces(bytes, value);
  }

  lemma Misplaces(bytes: seq<byte>, value: nat)
    requires !Oscillates(value) && Settled(value) == 12
    ensures Linked(OneText(bytes, value), 0) == Some((bytes, map["main" := value]))
    ensures LinkedEntry(OneText(bytes, value), "main")
         == Some((Code(value, 12) + ([0, 0, 0, 0] + bytes), map["main" := value + 16]))
  {
    hide Settled, Oscillates, Code, Linked, OneText;
    OneTextLinks(bytes, value, 0);
    OneTextLinks(bytes, value, 12);
    assert Zeros(0) + bytes == bytes && Zeros(4) == [0, 0, 0, 0];
  }

  lemma OneTextLinks(bytes: seq<byte>, value: nat, base: nat)
    ensures Linked(OneText(bytes, value), base)
         == Some((Zeros(Pad(base, 8)) + bytes, map["main" := base + Pad(base, 8) + value]))
  {
    hide LayoutOrder, Pad, Pairs, Place, Globals, PatchAll, Zeros;
    var objs := OneText(bytes, value);
    OneTextPlaced(bytes, value, base);
    PairsOne(1);
    PairsOne(0);
    assert seq(|objs|, i requires 0 <= i < |objs| => |objs[i].symbols|) == [1];
    assert seq(|objs|, i requires 0 <= i < |objs| => |objs[i].relas|) == [0];
    OneTextGlobals(bytes, value, map[(0, 1) := base + Pad(base, 8)]);
    PatchAllNone(objs, base, map[(0, 1) := base + Pad(base, 8)], map["main" := base + Pad(base, 8) + value],
                 Zeros(Pad(base, 8)) + bytes);
  }

  lemma PatchAllNone(objs: seq<Obj>, base: nat, placed: map<Key, nat>, g: map<string, nat>, image: seq<byte>)
    ensures PatchAll(objs, base, placed, g, [], image) == Some(image)
  {
  }

  lemma PairsOne(n: nat)
    ensures Pairs([n]) == PairRow(0, n) && PairRow(0, 0) == [] && PairRow(0, 1) == [(0, 0)]
    ensures PairRow(0, 2) == [(0, 0), (0, 1)]
  {
    hide Pairs;
    PairsNone();
    PairsSnoc([], n);
    assert [] + [n] == [n];
  }

  lemma OneTextGlobals(bytes: seq<byte>, value: nat, placed: map<Key, nat>)
    requires (0, 1) in placed
    ensures Globals(OneText(bytes, value), placed, [(0, 0)]) == Some(map["main" := placed[(0, 1)] + value])
  {
    assert [(0, 0)][..0] == [];
    GlobalsNone(OneText(bytes, value), placed);
  }

  lemma OneTextPlaced(bytes: seq<byte>, value: nat, base: nat)
    ensures Place(OneText(bytes, value), base, LayoutOrder(OneText(bytes, value)))
         == Placement(Zeros(Pad(base, 8)) + bytes, map[(0, 1) := base + Pad(base, 8)])
  {
    hide LayoutOrder, Place, Zeros, Pad;
    OneTextOrder(bytes, value);
    PlaceOne(OneText(bytes, value), base, (0, 1));
  }

  lemma OneTextOrder(bytes: seq<byte>, value: nat)
    ensures LayoutOrder(OneText(bytes, value)) == [(0, 1)]
  {
    hide OfKind, Pairs, SectionKind;
    var objs := OneText(bytes, value);
    PairsOne(2);
    assert seq(|objs|, i requires 0 <= i < |objs| => |objs[i].secs|) == [2];
    TextKind();
    SecondOfKind(objs, 0);
    SecondOfKind(objs, 1);
    SecondOfKind(objs, 2);
    SecondOfKind(objs, 3);
  }

  lemma TextKind()
    ensures SectionKind(".text") == 0
  {
  }

  lemma SecondOfKind(objs: seq<Obj>, kind: nat)
    requires IsSection(objs, (0, 0)) && IsSection(objs, (0, 1)) && !Sec(objs, (0, 0)).alloc && Sec(objs, (0, 1)).alloc
    requires SectionKind(Sec(objs, (0, 1)).name) == 0
    ensures OfKind(objs, [(0, 0), (0, 1)], kind) == if kind == 0 then [(0, 1)] else []
  {
    var keys: seq<Key> := [(0, 0), (0, 1)];
    FirstOfKind(objs, kind);
    assert keys[..1] == [(0, 0)];
    hide SectionKind;
  }

  lemma FirstOfKind(objs: seq<Obj>, kind: nat)
    requires IsSection(objs, (0, 0)) && !Sec(objs, (0, 0)).alloc
    ensures OfKind(objs, [(0, 0)], kind) == []
  {
    hide SectionKind;
    OfKindNone(objs);
  }
}
