/** Symbol resolution and im relocation in linker/zpld.py. */
module Relocation {
  import opened Words
  import opened Memory
  import opened Powers
  import opened Immediate
  import opened Linker

  const R_ZPU_IM := 1

  function SymbolKeys(objs: seq<Obj>): (keys: seq<Key>)
    ensures forall k :: k in keys <==> IsSymbol(objs, k)
  {
    Pairs(seq(|objs|, i requires 0 <= i < |objs| => |objs[i].symbols|))
  }

  function RelaKeys(objs: seq<Obj>): (keys: seq<Key>)
    ensures forall k :: k in keys <==> IsRela(objs, k)
  {
    Pairs(seq(|objs|, i requires 0 <= i < |objs| => |objs[i].relas|))
  }

  predicate IsSymbol(objs: seq<Obj>, k: Key) { k.0 < |objs| && k.1 < |objs[k.0].symbols| }

  predicate IsRela(objs: seq<Obj>, k: Key) { k.0 < |objs| && k.1 < |objs[k.0].relas| }

  function Sym(objs: seq<Obj>, k: Key): Symbol
    requires IsSymbol(objs, k)
  {
    objs[k.0].symbols[k.1]
  }

  /** The symbol has a section, and that section was placed. */
  predicate Defined(placed: map<Key, nat>, oi: nat, s: Symbol) { s.section != 0 && (oi, s.section) in placed }

  function AddressOf(placed: map<Key, nat>, oi: nat, s: Symbol): nat
    requires Defined(placed, oi, s)
  {
    placed[(oi, s.section)] + s.value
  }

  predicate IsExport(objs: seq<Obj>, placed: map<Key, nat>, k: Key)
    requires IsSymbol(objs, k)
  {
    Defined(placed, k.0, Sym(objs, k)) && Sym(objs, k).global
  }

  /** One round of the loop over symbols: None on a duplicate definition. */
  function AddGlobal(objs: seq<Obj>, placed: map<Key, nat>, k: Key, g: map<string, nat>): Option<map<string, nat>>
    requires IsSymbol(objs, k)
  {
    var s := Sym(objs, k);
    if !IsExport(objs, placed, k) then Some(g)
    else if s.name in g then None
    else Some(g[s.name := AddressOf(placed, k.0, s)])
  }

  function Globals(objs: seq<Obj>, placed: map<Key, nat>, keys: seq<Key>): Option<map<string, nat>>
    requires forall k :: k in keys ==> IsSymbol(objs, k)
    decreases |keys|
  {
    if keys == [] then Some(map[])
    else
      var g :- Globals(objs, placed, keys[..|keys| - 1]);
      AddGlobal(objs, placed, keys[|keys| - 1], g)
  }

  /** Two exports of one name. */
  ghost predicate Clash(objs: seq<Obj>, placed: map<Key, nat>, keys: seq<Key>)
    requires forall k :: k in keys ==> IsSymbol(objs, k)
  {
    exists i, j :: 0 <= i < j < |keys| && IsExport(objs, placed, keys[i]) && IsExport(objs, placed, keys[j])
                   && Sym(objs, keys[i]).name == Sym(objs, keys[j]).name
  }

  /** g maps exactly the exported names, each to the address of its definition. */
  ghost predicate GlobalsMean(objs: seq<Obj>, placed: map<Key, nat>, keys: seq<Key>, g: map<string, nat>)
    requires forall k :: k in keys ==> IsSymbol(objs, k)
  {
    && (forall k :: k in keys && IsExport(objs, placed, k) ==>
          Sym(objs, k).name in g && g[Sym(objs, k).name] == AddressOf(placed, k.0, Sym(objs, k)))
    && (forall name :: name in g ==>
          exists k :: k in keys && IsSymbol(objs, k) && IsExport(objs, placed, k) && Sym(objs, k).name == name)
  }

  /** Resolution fails exactly on a duplicate, and otherwise yields every export. */
  lemma {:induction false} GlobalsCorrect(objs: seq<Obj>, placed: map<Key, nat>, keys: seq<Key>)
    requires forall k :: k in keys ==> IsSymbol(objs, k)
    ensures Globals(objs, placed, keys).None? <==> Clash(objs, placed, keys)
    ensures Globals(objs, placed, keys).Some? ==> GlobalsMean(objs, placed, keys, Globals(objs, placed, keys).value)
    decreases |keys|
  {
    if keys != [] {
      var n := |keys| - 1;
      GlobalsCorrect(objs, placed, keys[..n]);
      ClashSnoc(objs, placed, keys);
      var g := Globals(objs, placed, keys[..n]);
      if g.Some? {
        GlobalsStep(objs, placed, keys, g.value);
      }
    }
  }

  lemma ClashSnoc(objs: seq<Obj>, placed: map<Key, nat>, keys: seq<Key>)
    requires keys != [] && forall k :: k in keys ==> IsSymbol(objs, k)
    ensures var n := |keys| - 1;
            Clash(objs, placed, keys) <==>
              Clash(objs, placed, keys[..n])
              || (IsExport(objs, placed, keys[n])
                  && exists i :: 0 <= i < n && IsExport(objs, placed, keys[i])
                                 && Sym(objs, keys[i]).name == Sym(objs, keys[n]).name)
  {
    hide IsExport, Sym;
    var n := |keys| - 1;
    if Clash(objs, placed, keys[..n]) {
      var i, j :| 0 <= i < j < n && IsExport(objs, placed, keys[..n][i]) && IsExport(objs, placed, keys[..n][j])
                  && Sym(objs, keys[..n][i]).name == Sym(objs, keys[..n][j]).name;
      assert keys[..n][i] == keys[i] && keys[..n][j] == keys[j];
    }
    if Clash(objs, placed, keys) {
      var i, j :| 0 <= i < j < |keys| && IsExport(objs, placed, keys[i]) && IsExport(objs, placed, keys[j])
                  && Sym(objs, keys[i]).name == Sym(objs, keys[j]).name;
      if j < n {
        assert keys[..n][i] == keys[i] && keys[..n][j] == keys[j];
      }
    }
  }

  lemma GlobalsStep(objs: seq<Obj>, placed: map<Key, nat>, keys: seq<Key>, g: map<string, nat>)
    requires keys != [] && forall k :: k in keys ==> IsSymbol(objs, k)
    requires GlobalsMean(objs, placed, keys[..|keys| - 1], g)
    ensures var n := |keys| - 1; var k := keys[n];
            var r := AddGlobal(objs, placed, k, g);
            && (r.None? <==> IsExport(objs, placed, k)
                             && exists i ::
                               0 <= i < n && IsExport(objs, placed, keys[i])
                               && Sym(objs, keys[i]).name == Sym(objs, k).name)
            && (r.Some? ==> GlobalsMean(objs, placed, keys, r.value))
  {
    hide AddressOf;
    var n := |keys| - 1;
    var k := keys[n];
    var r := AddGlobal(objs, placed, k, g);
    if r.None? {
      var x :| x in keys[..n] && IsSymbol(objs, x) && IsExport(objs, placed, x)
          && Sym(objs, x).name == Sym(objs, k).name;
      var i :| 0 <= i < n && keys[i] == x;
    } else {
      forall x | x in keys && IsExport(objs, placed, x)
        ensures Sym(objs, x).name in r.value && r.value[Sym(objs, x).name] == AddressOf(placed, x.0, Sym(objs, x))
      {
        if x != k {
          assert x in keys[..n];
        }
      }
      forall name | name in r.value
        ensures exists x :: x in keys && IsSymbol(objs, x) && IsExport(objs, placed, x) && Sym(objs, x).name == name
      {
        if name in g {
          var x :| x in keys[..n] && IsSymbol(objs, x) && IsExport(objs, placed, x) && Sym(objs, x).name == name;
          assert x in keys;
        } else {
          assert k in keys;
        }
      }
    }
  }

  /** resolve: a definition in the object's own placed sections wins over any global. */
  function Resolve(objs: seq<Obj>, placed: map<Key, nat>, g: map<string, nat>, oi: nat, idx: nat): Option<nat>
    requires oi < |objs|
  {
    if idx >= |objs[oi].symbols| then None
    else
      var s := objs[oi].symbols[idx];
      if Defined(placed, oi, s) then Some(AddressOf(placed, oi, s))
      else if s.name in g then Some(g[s.name])
      else None
  }

  /** The five bytes stored for a value, which may be negative or wider than a word. */
  function PatchBytes(value: int): (b: seq<byte>)
    ensures |b| == 5
  {
    seq(5, k requires 0 <= k < 5 => 0x80 + value / Pow2(7 * (4 - k)) % 128)
  }

  /** Whatever the value, the machine reads the patched run as the value mod 2^32. */
  lemma PatchDenotes(value: int)
    ensures IsImRun(PatchBytes(value)) && RunValue(PatchBytes(value)) == Wrap(value)
  {
    hide LongValue, RunValue, PatchBytes;
    var b := PatchBytes(value);
    PatchFields(value);
    var c0: int := b[0] - 0x80;
    var first := if c0 >= 64 then c0 - 128 else c0;
    LongOfFive(b, first, b[1] - 0x80, b[2] - 0x80, b[3] - 0x80, b[4] - 0x80);
    var q := LowFields(value, c0, b[1] - 0x80, b[2] - 0x80, b[3] - 0x80, b[4] - 0x80, first);
    RunIsLong(b);
    WrapAdd(value, q);
  }

  lemma PatchFields(value: int)
    ensures var b := PatchBytes(value);
            && IsImRun(b) && b[0] - 0x80 == value / 0x1000_0000 % 128 && b[1] - 0x80 == value / 0x20_0000 % 128
            && b[2] - 0x80 == value / 0x4000 % 128 && b[3] - 0x80 == value / 0x80 % 128 && b[4] - 0x80 == value % 128
  {
    Powers7();
    hide Pow2, PatchBytes;
    PatchField(value, 0, 0x1000_0000);
    PatchField(value, 1, 0x20_0000);
    PatchField(value, 2, 0x4000);
    PatchField(value, 3, 0x80);
    PatchField(value, 4, 1);
  }

  lemma PatchField(value: int, k: nat, d: nat)
    requires k < 5 && d == Pow2(7 * (4 - k))
    ensures d > 0 && PatchBytes(value)[k] >= 0x80 && PatchBytes(value)[k] - 0x80 == value / d % 128
  {
  }

  lemma LongOfFive(b: seq<byte>, first: int, c1: int, c2: int, c3: int, c4: int)
    requires IsImRun(b) && |b| == 5
    requires first == if b[0] >= 0xc0 then (b[0] as int) - 0x100 else b[0] - 0x80
    requires c1 == b[1] - 0x80 && c2 == b[2] - 0x80 && c3 == b[3] - 0x80 && c4 == b[4] - 0x80
    ensures LongValue(b) == (((first * 128 + c1) * 128 + c2) * 128 + c3) * 128 + c4
  {
    hide LongValue;
    assert b == [b[0]] + [b[1]] + [b[2]] + [b[3]] + [b[4]];
    LongSingle(b[0]);
    LongExtend([b[0]], b[1]);
    LongExtend([b[0]] + [b[1]], b[2]);
    LongExtend([b[0]] + [b[1]] + [b[2]], b[3]);
    LongExtend([b[0]] + [b[1]] + [b[2]] + [b[3]], b[4]);
  }

  /** Seven-bit fields carry the low 35 bits; sign extension changes only bit 35 and up. */
  lemma LowFields(v: int, c0: int, c1: int, c2: int, c3: int, c4: int, first: int) returns (q: int)
    requires c0 == v / 0x1000_0000 % 128 && c1 == v / 0x20_0000 % 128 && c2 == v / 0x4000 % 128
    requires c3 == v / 0x80 % 128 && c4 == v % 128
    requires first == c0 || first == c0 - 128
    ensures (((first * 128 + c1) * 128 + c2) * 128 + c3) * 128 + c4 == v + q * 0x1_0000_0000
  {
    var top := v / 0x1000_0000 / 128 + (if first == c0 then 0 else 1);
    NestedShifts(v);
    q := -8 * top;
    FieldSum(v / 0x1000_0000, v / 0x20_0000, v / 0x4000, v / 0x80, v, c1, c2, c3, c4, first, top);
  }

  lemma FieldSum(x0: int, x1: int, x2: int, x3: int, x4: int, c1: int, c2: int, c3: int, c4: int, first: int, top: int)
    requires x1 == x0 * 128 + c1 && x2 == x1 * 128 + c2 && x3 == x2 * 128 + c3 && x4 == x3 * 128 + c4
    requires first == x0 - 128 * top
    ensures (((first * 128 + c1) * 128 + c2) * 128 + c3) * 128 + c4 == x4 - 0x8_0000_0000 * top
  {
  }

  function Rel(objs: seq<Obj>, k: Key): Rela
    requires IsRela(objs, k)
  {
    objs[k.0].relas[k.1]
  }

  /** Where in the image a relocation's window starts. */
  function WindowAt(objs: seq<Obj>, base: nat, placed: map<Key, nat>, k: Key): int
    requires IsRela(objs, k) && (k.0, Rel(objs, k).applies) in placed
  {
    placed[(k.0, Rel(objs, k).applies)] - base + Rel(objs, k).offset
  }

  /** A relocation the linker accepts. */
  predicate Applicable(objs: seq<Obj>, base: nat, placed: map<Key, nat>, g: map<string, nat>, size: nat, k: Key)
    requires IsRela(objs, k)
  {
    && Rel(objs, k).kind == R_ZPU_IM
    && (k.0, Rel(objs, k).applies) in placed
    && 0 <= WindowAt(objs, base, placed, k) && WindowAt(objs, base, placed, k) + 5 <= size
    && Resolve(objs, placed, g, k.0, Rel(objs, k).sym).Some?
  }

  /** The value it stores: symbol plus addend. */
  function RelocValue(objs: seq<Obj>, base: nat, placed: map<Key, nat>, g: map<string, nat>, size: nat, k: Key): int
    requires IsRela(objs, k) && Applicable(objs, base, placed, g, size, k)
  {
    Resolve(objs, placed, g, k.0, Rel(objs, k).sym).value + Rel(objs, k).addend
  }

  function Patch(objs: seq<Obj>, base: nat, placed: map<Key, nat>, g: map<string, nat>, k: Key,
                 image: seq<byte>): (r: Option<seq<byte>>)
    requires IsRela(objs, k)
    ensures r.Some? ==> |r.value| == |image|
  {
    if !Applicable(objs, base, placed, g, |image|, k) then None
    else Some(Splice(image, WindowAt(objs, base, placed, k), PatchBytes(RelocValue(objs, base, placed, g, |image|, k))))
  }

  function PatchAll(objs: seq<Obj>, base: nat, placed: map<Key, nat>, g: map<string, nat>, keys: seq<Key>,
                    image: seq<byte>): (r: Option<seq<byte>>)
    requires forall k :: k in keys ==> IsRela(objs, k)
    ensures r.Some? ==> |r.value| == |image|
    decreases |keys|
  {
    if keys == [] then Some(image)
    else
      var before :- PatchAll(objs, base, placed, g, keys[..|keys| - 1], image);
      Patch(objs, base, placed, g, keys[|keys| - 1], before)
  }

  ghost predicate InWindow(objs: seq<Obj>, base: nat, placed: map<Key, nat>, k: Key, a: int) {
    && IsRela(objs, k) && (k.0, Rel(objs, k).applies) in placed
    && var at := placed[(k.0, Rel(objs, k).applies)] - base + Rel(objs, k).offset;
    at <= a < at + 5
  }

  /** No later relocation's window overlaps that of k. */
  ghost predicate Last(objs: seq<Obj>, base: nat, placed: map<Key, nat>, k: Key) {
    forall x, a :: Before(k, x) && InWindow(objs, base, placed, x, a) ==> !InWindow(objs, base, placed, k, a)
  }

  /** Relocation fails exactly when some entry is not applicable. */
  lemma {:induction false} PatchAllSucceeds(objs: seq<Obj>, base: nat, placed: map<Key, nat>, g: map<string, nat>,
                                            keys: seq<Key>, image: seq<byte>)
    requires forall k :: k in keys ==> IsRela(objs, k)
    ensures PatchAll(objs, base, placed, g, keys, image).Some? <==>
              forall k :: k in keys ==> Applicable(objs, base, placed, g, |image|, k)
    decreases |keys|
  {
    hide Applicable;
    if keys != [] {
      var n := |keys| - 1;
      PatchAllSucceeds(objs, base, placed, g, keys[..n], image);
      assert forall k :: k in keys <==> k in keys[..n] || k == keys[n];
    }
  }

  /** Bytes outside every window are untouched. */
  lemma {:induction false} OutsideWindows(objs: seq<Obj>, base: nat, placed: map<Key, nat>, g: map<string, nat>,
                                          keys: seq<Key>, image: seq<byte>, a: int)
    requires forall k :: k in keys ==> IsRela(objs, k)
    requires PatchAll(objs, base, placed, g, keys, image).Some? && 0 <= a < |image|
    requires forall k :: k in keys ==> !InWindow(objs, base, placed, k, a)
    ensures PatchAll(objs, base, placed, g, keys, image).value[a] == image[a]
    decreases |keys|
  {
    if keys != [] {
      OutsideWindows(objs, base, placed, g, keys[..|keys| - 1], image, a);
      assert keys[|keys| - 1] in keys;
    }
  }

  /** A window that no later one overlaps ends up holding its own value. */
  lemma {:induction false} WindowsHold(objs: seq<Obj>, base: nat, placed: map<Key, nat>, g: map<string, nat>,
                                       keys: seq<Key>, image: seq<byte>, i: nat)
    requires forall k :: k in keys ==> IsRela(objs, k)
    requires PatchAll(objs, base, placed, g, keys, image).Some? && i < |keys|
    requires Ascends(keys) && Last(objs, base, placed, keys[i])
    ensures Applicable(objs, base, placed, g, |image|, keys[i])
    ensures CodeAt(PatchAll(objs, base, placed, g, keys, image).value, WindowAt(objs, base, placed, keys[i]),
                   PatchBytes(RelocValue(objs, base, placed, g, |image|, keys[i])))
    decreases |keys|
  {
    hide PatchBytes, Resolve;
    var n := |keys| - 1;
    var before := PatchAll(objs, base, placed, g, keys[..n], image).value;
    if i < n {
      WindowsHold(objs, base, placed, g, keys[..n], image, i);
      assert keys[..n][i] == keys[i];
      var at := WindowAt(objs, base, placed, keys[i]);
      forall a | at <= a < at + 5
        ensures !InWindow(objs, base, placed, keys[n], a)
      {
        assert Before(keys[i], keys[n]) && InWindow(objs, base, placed, keys[i], a);
      }
      PatchElsewhere(objs, base, placed, g, keys[n], before, at,
                     PatchBytes(RelocValue(objs, base, placed, g, |image|, keys[i])));
    } else {
      PatchHere(objs, base, placed, g, keys[n], before);
    }
  }

  lemma PatchHere(objs: seq<Obj>, base: nat, placed: map<Key, nat>, g: map<string, nat>, k: Key, image: seq<byte>)
    requires IsRela(objs, k) && Patch(objs, base, placed, g, k, image).Some?
    ensures Applicable(objs, base, placed, g, |image|, k)
    ensures CodeAt(Patch(objs, base, placed, g, k, image).value, WindowAt(objs, base, placed, k),
                   PatchBytes(RelocValue(objs, base, placed, g, |image|, k)))
  {
    hide PatchBytes, Resolve;
  }

  lemma PatchElsewhere(objs: seq<Obj>, base: nat, placed: map<Key, nat>, g: map<string, nat>, k: Key,
                       image: seq<byte>, at: int, b: seq<byte>)
    requires IsRela(objs, k) && Patch(objs, base, placed, g, k, image).Some?
    requires CodeAt(image, at, b) && forall a :: at <= a < at + |b| ==> !InWindow(objs, base, placed, k, a)
    ensures CodeAt(Patch(objs, base, placed, g, k, image).value, at, b)
  {
    hide PatchBytes, Resolve;
    var out := Patch(objs, base, placed, g, k, image).value;
    forall i | 0 <= i < |b|
      ensures out[at + i] == b[i]
    {
      assert !InWindow(objs, base, placed, k, at + i);
    }
  }

  /** The image and the globals of a link at a base address; None where the linker raises. */
  function Linked(objs: seq<Obj>, base: nat): Option<(seq<byte>, map<string, nat>)> {
    var p := Place(objs, base, LayoutOrder(objs));
    var g :- Globals(objs, p.placed, SymbolKeys(objs));
    var image :- PatchAll(objs, base, p.placed, g, RelaKeys(objs), p.image);
    Some((image, g))
  }

  method CollectGlobals(objs: seq<Obj>, placed: map<Key, nat>) returns (g: Option<map<string, nat>>)
    ensures g == Globals(objs, placed, SymbolKeys(objs))
  {
    hide IsExport, AddressOf, Pairs;
    var keys := EnumeratePairs(seq(|objs|, i requires 0 <= i < |objs| => |objs[i].symbols|));
    var known: map<string, nat> := map[];
    GlobalsNone(objs, placed);
    assert keys[..0] == [];
    for i := 0 to |keys|
      invariant Globals(objs, placed, keys[..i]) == Some(known)
    {
      GlobalsFail(objs, placed, keys, i + 1);
      assert keys[..i + 1][..i] == keys[..i];
      var next := AddGlobal(objs, placed, keys[i], known);
      if next.None? {
        return None;
      }
      known := next.value;
    }
    assert keys[..|keys|] == keys;
    g := Some(known);
  }

  lemma GlobalsNone(objs: seq<Obj>, placed: map<Key, nat>)
    ensures Globals(objs, placed, []) == Some(map[])
  {
  }

  lemma {:induction false} GlobalsFail(objs: seq<Obj>, placed: map<Key, nat>, keys: seq<Key>, n: nat)
    requires n <= |keys| && forall k :: k in keys ==> IsSymbol(objs, k)
    ensures Globals(objs, placed, keys[..n]).None? ==> Globals(objs, placed, keys).None?
    decreases |keys|
  {
    hide AddGlobal;
    if n < |keys| {
      GlobalsFail(objs, placed, keys[..|keys| - 1], n);
      assert keys[..|keys| - 1][..n] == keys[..n];
    } else {
      assert keys[..n] == keys;
    }
  }

  method RelocateOne(objs: seq<Obj>, base: nat, placed: map<Key, nat>, g: map<string, nat>, k: Key, image: seq<byte>)
    returns (r: Option<seq<byte>>)
    requires IsRela(objs, k)
    ensures r == Patch(objs, base, placed, g, k, image)
  {
    hide PatchBytes, Resolve, Splice;
    var rela := Rel(objs, k);
    if rela.kind != R_ZPU_IM || (k.0, rela.applies) !in placed {
      return None;
    }
    var at := placed[(k.0, rela.applies)] - base + rela.offset;
    if at < 0 || at + 5 > |image| {
      return None;
    }
    var symbol := Resolve(objs, placed, g, k.0, rela.sym);
    if symbol.None? {
      return None;
    }
    r := Some(Splice(image, at, PatchBytes(symbol.value + rela.addend)));
  }

  method Relocate(objs: seq<Obj>, base: nat, placed: map<Key, nat>, g: map<string, nat>, image0: seq<byte>)
    returns (image: Option<seq<byte>>)
    ensures image == PatchAll(objs, base, placed, g, RelaKeys(objs), image0)
  {
    hide Pairs, Patch;
    var keys := EnumeratePairs(seq(|objs|, i requires 0 <= i < |objs| => |objs[i].relas|));
    var out := image0;
    assert keys[..0] == [];
    for i := 0 to |keys|
      invariant PatchAll(objs, base, placed, g, keys[..i], image0) == Some(out)
    {
      PatchAllFails(objs, base, placed, g, keys, image0, i + 1);
      assert keys[..i + 1][..i] == keys[..i];
      var next := RelocateOne(objs, base, placed, g, keys[i], out);
      if next.None? {
        return None;
      }
      out := next.value;
    }
    assert keys[..|keys|] == keys;
    image := Some(out);
  }

  lemma {:induction false} PatchAllFails(objs: seq<Obj>, base: nat, placed: map<Key, nat>, g: map<string, nat>,
                                         keys: seq<Key>, image: seq<byte>, n: nat)
    requires n <= |keys| && forall k :: k in keys ==> IsRela(objs, k)
    ensures PatchAll(objs, base, placed, g, keys[..n], image).None? ==> PatchAll(objs, base, placed, g, keys, image).None?
    decreases |keys|
  {
    hide Patch;
    if n < |keys| {
      PatchAllFails(objs, base, placed, g, keys[..|keys| - 1], image, n);
      assert keys[..|keys| - 1][..n] == keys[..n];
    } else {
      assert keys[..n] == keys;
    }
  }

  /** _layout_and_resolve */
  method LayoutAndResolve(objs: seq<Obj>, base: nat) returns (r: Option<(seq<byte>, map<string, nat>)>)
    ensures r == Linked(objs, base)
  {
    hide Place, LayoutOrder, Globals, PatchAll, SymbolKeys, RelaKeys;
    var p := Layout(objs, base);
    var g := CollectGlobals(objs, p.placed);
    if g.None? {
      return None;
    }
    var image := Relocate(objs, base, p.placed, g.value, p.image);
    if image.None? {
      return None;
    }
    r := Some((image.value, g.value));
  }

  /** The definition x that relocation k is about: the one its own object has for the symbol,
      or else the export of the symbol's name. */
  ghost predicate Refers(objs: seq<Obj>, placed: map<Key, nat>, k: Key, x: Key)
    requires IsRela(objs, k)
  {
    var own := (k.0, Rel(objs, k).sym);
    && IsSymbol(objs, own) && IsSymbol(objs, x)
    && Sym(objs, x).section != 0 && (x.0, Sym(objs, x).section) in placed
    && if Sym(objs, own).section != 0 && (k.0, Sym(objs, own).section) in placed then x == own
       else Sym(objs, x).global && Sym(objs, x).name == Sym(objs, own).name
  }

  /** Every relocation that resolves is about some definition, and resolves to the address of
      any it is about. */
  lemma Referents(objs: seq<Obj>, placed: map<Key, nat>, g: map<string, nat>, k: Key)
    requires IsRela(objs, k) && GlobalsMean(objs, placed, SymbolKeys(objs), g)
    requires Resolve(objs, placed, g, k.0, Rel(objs, k).sym).Some?
    ensures exists x :: Refers(objs, placed, k, x)
    ensures forall x :: Refers(objs, placed, k, x) ==>
              AddressOf(placed, x.0, Sym(objs, x)) == Resolve(objs, placed, g, k.0, Rel(objs, k).sym).value
  {
    hide SymbolKeys, AddressOf;
    var own := (k.0, Rel(objs, k).sym);
    if Defined(placed, k.0, Sym(objs, own)) {
      assert Refers(objs, placed, k, own);
    } else {
      assert Sym(objs, own).name in g;
      var x :| x in SymbolKeys(objs) && IsSymbol(objs, x) && IsExport(objs, placed, x)
          && Sym(objs, x).name == Sym(objs, own).name;
      assert Refers(objs, placed, k, x);
      assert forall y :: Refers(objs, placed, k, y) ==> y in SymbolKeys(objs) && IsExport(objs, placed, y);
    }
  }

  /** The window of k reads as the address of the definition k is about, plus k's addend. */
  ghost predicate WindowMeans(objs: seq<Obj>, base: nat, placed: map<Key, nat>, image: seq<byte>, k: Key)
    requires IsRela(objs, k) && (k.0, Rel(objs, k).applies) in placed
  {
    && (exists x :: Refers(objs, placed, k, x))
    && forall x :: Refers(objs, placed, k, x) ==> DecodesAt(objs, base, placed, image, k, x)
  }

  ghost predicate DecodesAt(objs: seq<Obj>, base: nat, placed: map<Key, nat>, image: seq<byte>, k: Key, x: Key)
    requires IsRela(objs, k) && (k.0, Rel(objs, k).applies) in placed && Refers(objs, placed, k, x)
  {
    var at, address := placed[(k.0, Rel(objs, k).applies)], placed[(x.0, Sym(objs, x).section)];
    Decodes(image, at - base + Rel(objs, k).offset, address + Sym(objs, x).value + Rel(objs, k).addend)
  }

  /** What a successful link promises: every allocatable section is placed in order, disjoint
      and aligned; bytes outside the windows are the sections' own; and the machine reads each
      window that no later one overlaps as the address of the definition it is about -- the
      object's own if it has one, else the one export of that name -- plus the addend. */
  lemma LinkedImage(objs: seq<Obj>, base: nat, image: seq<byte>, g: map<string, nat>)
    requires Linked(objs, base) == Some((image, g))
    ensures var p := Place(objs, base, LayoutOrder(objs));
            && LaidOut(objs, base, LayoutOrder(objs), p) && |image| == |p.image|
            && GlobalsMean(objs, p.placed, SymbolKeys(objs), g) && !Clash(objs, p.placed, SymbolKeys(objs))
            && (forall a :: 0 <= a < |image| ==>
                  image[a] == p.image[a] || exists k :: InWindow(objs, base, p.placed, k, a))
            && (forall k :: IsRela(objs, k) ==> (k.0, Rel(objs, k).applies) in p.placed)
            && (forall k :: IsRela(objs, k) && Last(objs, base, p.placed, k) ==>
                  WindowMeans(objs, base, p.placed, image, k))
  {
    hide Place, LayoutOrder, SymbolKeys, RelaKeys, Resolve, Globals, LaidOut, GlobalsMean, Clash, WindowMeans;
    var p := Place(objs, base, LayoutOrder(objs));
    var keys := RelaKeys(objs);
    PlaceLaysOut(objs, base, LayoutOrder(objs));
    GlobalsCorrect(objs, p.placed, SymbolKeys(objs));
    PatchAllSucceeds(objs, base, p.placed, g, keys, p.image);
    forall a | 0 <= a < |image| && forall k :: k in keys ==> !InWindow(objs, base, p.placed, k, a)
      ensures image[a] == p.image[a]
    {
      OutsideWindows(objs, base, p.placed, g, keys, p.image, a);
    }
    RelasAscend(objs);
    forall k | k in keys && Last(objs, base, p.placed, k)
      ensures WindowMeans(objs, base, p.placed, image, k)
    {
      WindowDecodes(objs, base, p.placed, g, keys, p.image, k);
      WindowIsReferent(objs, base, p.placed, g, image, k);
    }
  }

  lemma RelasAscend(objs: seq<Obj>)
    ensures Ascends(RelaKeys(objs))
  {
    PairsAscend(seq(|objs|, i requires 0 <= i < |objs| => |objs[i].relas|));
  }

  lemma WindowIsReferent(objs: seq<Obj>, base: nat, placed: map<Key, nat>, g: map<string, nat>, image: seq<byte>,
                         k: Key)
    requires IsRela(objs, k) && GlobalsMean(objs, placed, SymbolKeys(objs), g)
    requires Applicable(objs, base, placed, g, |image|, k)
    requires Decodes(image, WindowAt(objs, base, placed, k), RelocValue(objs, base, placed, g, |image|, k))
    ensures WindowMeans(objs, base, placed, image, k)
  {
    hide Refers, SymbolKeys, GlobalsMean, Resolve, Decodes;
    Referents(objs, placed, g, k);
  }

  lemma WindowDecodes(objs: seq<Obj>, base: nat, placed: map<Key, nat>, g: map<string, nat>, keys: seq<Key>,
                      image: seq<byte>, k: Key)
    requires forall x :: x in keys ==> IsRela(objs, x)
    requires PatchAll(objs, base, placed, g, keys, image).Some? && k in keys
    requires Ascends(keys) && Last(objs, base, placed, k)
    ensures Applicable(objs, base, placed, g, |image|, k)
    ensures Decodes(PatchAll(objs, base, placed, g, keys, image).value, WindowAt(objs, base, placed, k),
                    RelocValue(objs, base, placed, g, |image|, k))
  {
    hide PatchAll, Resolve, PatchBytes, CodeAt, RunValue, IsImRun, Last;
    var i :| 0 <= i < |keys| && keys[i] == k;
    WindowsHold(objs, base, placed, g, keys, image, i);
    PatchDenotes(RelocValue(objs, base, placed, g, |image|, k));
  }

  /** Five bytes at `at` form an im run that denotes value mod 2^32. */
  ghost predicate Decodes(image: seq<byte>, at: int, value: int) {
    exists b :: IsImRun(b) && |b| == 5 && CodeAt(image, at, b) && RunValue(b) == Wrap(value)
  }

  /** Symbol x is a global of this name in a section that was placed. */
  ghost predicate Exports(objs: seq<Obj>, placed: map<Key, nat>, x: Key, name: string) {
    && IsSymbol(objs, x) && Sym(objs, x).name == name && Sym(objs, x).global
    && Sym(objs, x).section != 0 && (x.0, Sym(objs, x).section) in placed
  }

  /** Two symbols export one name. */
  ghost predicate TwoExports(objs: seq<Obj>, placed: map<Key, nat>) {
    exists x, y, name :: x != y && Exports(objs, placed, x, name) && Exports(objs, placed, y, name)
  }

  /** A relocation of another type, for a section that is not in the image, with a window that
      ends behind the image, of a symbol that is not there, or of one that is neither in a
      placed section of its own object nor exported by any. */
  ghost predicate Refused(objs: seq<Obj>, base: nat, placed: map<Key, nat>, size: nat, k: Key)
    requires IsRela(objs, k)
  {
    var r := objs[k.0].relas[k.1];
    || r.kind != 1
    || (k.0, r.applies) !in placed
    || placed[(k.0, r.applies)] + r.offset + 5 > base + size
    || r.sym >= |objs[k.0].symbols|
    || var s := objs[k.0].symbols[r.sym];
       !(s.section != 0 && (k.0, s.section) in placed) && forall x :: !Exports(objs, placed, x, s.name)
  }

  /** The link fails exactly on two exports of one name or a relocation it refuses. */
  lemma LinkFails(objs: seq<Obj>, base: nat)
    ensures var p := Place(objs, base, LayoutOrder(objs));
            Linked(objs, base).None? <==>
              TwoExports(objs, p.placed)
              || exists k :: IsRela(objs, k) && Refused(objs, base, p.placed, |p.image|, k)
  {
    hide Place, LayoutOrder, SymbolKeys, RelaKeys, Resolve, Globals, LaidOut, Clash, GlobalsMean, Refused, Applicable,
      TwoExports;
    var p := Place(objs, base, LayoutOrder(objs));
    GlobalsCorrect(objs, p.placed, SymbolKeys(objs));
    ClashIsTwo(objs, p.placed);
    var g := Globals(objs, p.placed, SymbolKeys(objs));
    if g.Some? {
      PatchAllSucceeds(objs, base, p.placed, g.value, RelaKeys(objs), p.image);
      PlaceLaysOut(objs, base, LayoutOrder(objs));
      forall k | IsRela(objs, k)
        ensures Applicable(objs, base, p.placed, g.value, |p.image|, k)
           <==> !Refused(objs, base, p.placed, |p.image|, k)
      {
        RefusedIsInapplicable(objs, base, p, g.value, k);
      }
    }
  }

  lemma ClashIsTwo(objs: seq<Obj>, placed: map<Key, nat>)
    ensures Clash(objs, placed, SymbolKeys(objs)) <==> TwoExports(objs, placed)
  {
    hide SymbolKeys, Clash, Exports;
    if x, y, name :| x != y && Exports(objs, placed, x, name) && Exports(objs, placed, y, name) {
      TwoClash(objs, placed, x, y, name);
    }
    if Clash(objs, placed, SymbolKeys(objs)) {
      ClashTwo(objs, placed);
    }
  }

  lemma ClashTwo(objs: seq<Obj>, placed: map<Key, nat>)
    requires Clash(objs, placed, SymbolKeys(objs))
    ensures TwoExports(objs, placed)
  {
    DistinctSymbols(objs);
    hide SymbolKeys;
    var keys := SymbolKeys(objs);
    var i, j :| 0 <= i < j < |keys| && IsExport(objs, placed, keys[i]) && IsExport(objs, placed, keys[j])
                && Sym(objs, keys[i]).name == Sym(objs, keys[j]).name;
    assert Exports(objs, placed, keys[i], Sym(objs, keys[i]).name);
    assert Exports(objs, placed, keys[j], Sym(objs, keys[i]).name);
  }

  lemma TwoClash(objs: seq<Obj>, placed: map<Key, nat>, x: Key, y: Key, name: string)
    requires x != y && Exports(objs, placed, x, name) && Exports(objs, placed, y, name)
    ensures Clash(objs, placed, SymbolKeys(objs))
  {
    var keys := SymbolKeys(objs);
    hide SymbolKeys;
    assert IsExport(objs, placed, x) && IsExport(objs, placed, y);
    var i :| 0 <= i < |keys| && keys[i] == x;
    var j :| 0 <= j < |keys| && keys[j] == y;
    assert i < j || j < i;
  }

  lemma DistinctSymbols(objs: seq<Obj>)
    ensures var keys := SymbolKeys(objs); forall i, j :: 0 <= i < j < |keys| ==> keys[i] != keys[j]
  {
  }

  lemma RefusedIsInapplicable(objs: seq<Obj>, base: nat, p: Placement, g: map<string, nat>, k: Key)
    requires IsRela(objs, k) && GlobalsMean(objs, p.placed, SymbolKeys(objs), g)
    requires LaidOut(objs, base, LayoutOrder(objs), p)
    ensures Applicable(objs, base, p.placed, g, |p.image|, k) <==> !Refused(objs, base, p.placed, |p.image|, k)
  {
    hide LayoutOrder, SymbolKeys, InOrder, Tight, GapsZero, CodeAt, GlobalsMean;
    var r := Rel(objs, k);
    var x := (k.0, r.applies);
    if x in p.placed {
      assert SectionAt(objs, base, p, x);
    }
    if r.sym < |objs[k.0].symbols| {
      ExportsKnown(objs, p.placed, g, objs[k.0].symbols[r.sym].name);
    }
  }

  lemma ExportsKnown(objs: seq<Obj>, placed: map<Key, nat>, g: map<string, nat>, name: string)
    requires GlobalsMean(objs, placed, SymbolKeys(objs), g)
    ensures name in g <==> exists x :: Exports(objs, placed, x, name)
  {
    hide SymbolKeys, AddressOf;
    if name in g {
      var x :| x in SymbolKeys(objs) && IsSymbol(objs, x) && IsExport(objs, placed, x) && Sym(objs, x).name == name;
      assert Exports(objs, placed, x, name);
    }
    if x :| Exports(objs, placed, x, name) {
      assert x in SymbolKeys(objs) && IsExport(objs, placed, x);
    }
  }

  /** Which symbols are exported, and whether two clash, does not depend on the addresses. */
  lemma GlobalsSameNames(objs: seq<Obj>, p: map<Key, nat>, q: map<Key, nat>, keys: seq<Key>)
    requires forall k :: k in keys ==> IsSymbol(objs, k)
    requires forall k :: k in q <==> k in p
    ensures var g, h := Globals(objs, p, keys), Globals(objs, q, keys);
            && (g.Some? <==> h.Some?)
            && (g.Some? ==> forall n :: n in h.value <==> n in g.value)
  {
    hide AddressOf;
    GlobalsCorrect(objs, p, keys);
    GlobalsCorrect(objs, q, keys);
    assert forall k :: k in keys ==> (IsExport(objs, q, k) <==> IsExport(objs, p, k));
    hide IsExport, Globals;
  }

  /** Moving every section by the same distance moves every global by it. */
  lemma {:induction false} GlobalsShift(objs: seq<Obj>, p: map<Key, nat>, q: map<Key, nat>, d: nat, keys: seq<Key>)
    requires forall k :: k in keys ==> IsSymbol(objs, k)
    requires (forall k :: k in q <==> k in p) && forall k :: k in p ==> q[k] == p[k] + d
    ensures var g, h := Globals(objs, p, keys), Globals(objs, q, keys);
            && (g.Some? <==> h.Some?)
            && (g.Some? ==> (forall n :: n in h.value <==> n in g.value)
                            && forall n :: n in g.value ==> h.value[n] == g.value[n] + d)
    decreases |keys|
  {
    if keys != [] {
      GlobalsShift(objs, p, q, d, keys[..|keys| - 1]);
    }
  }
}
