/** The static linker of linker/zpld.py, from parsed objects on: layout, symbol resolution
    and im relocation. */
module Linker {
  import opened Words
  import opened Powers
  import opened Immediate

  datatype Section = Section(name: string, alloc: bool, alignField: nat, bytes: seq<byte>)
  datatype Symbol = Symbol(name: string, value: nat, global: bool, section: nat)
  datatype Rela = Rela(applies: nat, offset: nat, sym: nat, kind: nat, addend: int)
  datatype Obj = Obj(secs: seq<Section>, symbols: seq<Symbol>, relas: seq<Rela>)

  type Key = (nat, nat)

  predicate StartsWith(s: string, p: string) { |p| <= |s| && s[..|p|] == p }

  /** _section_kind */
  function SectionKind(name: string): (k: nat)
    ensures k < 4
  {
    if StartsWith(name, ".text") then 0
    else if StartsWith(name, ".rodata") then 1
    else if StartsWith(name, ".bss") then 3
    else 2
  }

  function Alignment(s: Section): (a: nat)
    ensures a >= 1
  {
    if s.alignField == 0 then 1 else s.alignField
  }

  lemma AlignmentIsField(s: Section, x: int)
    ensures x % Alignment(s) == 0 <==> (s.alignField > 0 ==> x % s.alignField == 0)
  {
  }

  /** Padding that brings pos up to a multiple of a. */
  function Pad(pos: nat, a: nat): (n: nat)
    requires a >= 1
  {
    if pos % a == 0 then 0 else a - pos % a
  }

  /** Counting up from pos, the first multiple of a is Pad(pos, a) steps away. */
  lemma PadIsFirst(pos: nat, a: nat, n: nat)
    requires a >= 1 && n <= Pad(pos, a)
    ensures (pos + n) % a == 0 <==> n == Pad(pos, a)
  {
    var q, r := pos / a, pos % a;
    assert pos == q * a + r;
    if r + n == a {
      DivMod(q + 1, 0, a);
      assert (q + 1) * a == q * a + a;
    } else {
      DivMod(q, r + n, a);
    }
  }

  /** Every (object, entry) pair in enumeration order. */
  function Pairs(sizes: seq<nat>): (p: seq<Key>)
    ensures forall k :: k in p <==> k.0 < |sizes| && k.1 < sizes[k.0]
    ensures forall i, j :: 0 <= i < j < |p| ==> p[i] != p[j]
    decreases |sizes|
  {
    if sizes == [] then []
    else
      var n := |sizes| - 1;
      Pairs(sizes[..n]) + PairRow(n, sizes[n])
  }

  function PairRow(i: nat, n: nat): (r: seq<Key>)
    ensures |r| == n && forall j :: 0 <= j < n ==> r[j] == (i, j)
    ensures forall k :: k in r <==> k.0 == i && k.1 < n
  {
    var r := seq(n, j => (i, j));
    assert forall k: Key :: k.0 == i && k.1 < n ==> r[k.1] == k;
    r
  }

  function SectionKeys(objs: seq<Obj>): seq<Key> {
    Pairs(seq(|objs|, i requires 0 <= i < |objs| => |objs[i].secs|))
  }

  predicate IsSection(objs: seq<Obj>, k: Key) { k.0 < |objs| && k.1 < |objs[k.0].secs| }

  function Sec(objs: seq<Obj>, k: Key): Section
    requires IsSection(objs, k)
  {
    objs[k.0].secs[k.1]
  }

  /** The allocatable sections of one kind among keys, in order. */
  function OfKind(objs: seq<Obj>, keys: seq<Key>, kind: nat): (r: seq<Key>)
    requires forall k :: k in keys ==> IsSection(objs, k)
    ensures forall k :: k in r <==> k in keys && Sec(objs, k).alloc && SectionKind(Sec(objs, k).name) == kind
    ensures (forall i, j :: 0 <= i < j < |keys| ==> keys[i] != keys[j]) ==> forall i, j :: 0 <= i < j < |r| ==> r[i] != r[j]
    decreases |keys|
  {
    if keys == [] then []
    else
      var k := keys[|keys| - 1];
      OfKind(objs, keys[..|keys| - 1], kind)
      + (if Sec(objs, k).alloc && SectionKind(Sec(objs, k).name) == kind then [k] else [])
  }

  /** Layout order: by kind, then by object, then by section. */
  function LayoutOrder(objs: seq<Obj>): (order: seq<Key>)
    ensures forall k :: k in order <==> IsSection(objs, k) && Sec(objs, k).alloc
    ensures forall i, j :: 0 <= i < j < |order| ==>
              order[i] != order[j] && SectionKind(Sec(objs, order[i]).name) <= SectionKind(Sec(objs, order[j]).name)
  {
    var keys := SectionKeys(objs);
    OfKind(objs, keys, 0) + OfKind(objs, keys, 1) + OfKind(objs, keys, 2) + OfKind(objs, keys, 3)
  }

  /** Whether section k comes before section l in the objects as given. */
  predicate Before(k: Key, l: Key) { k.0 < l.0 || (k.0 == l.0 && k.1 < l.1) }

  ghost predicate Ascends(keys: seq<Key>) { forall i, j :: 0 <= i < j < |keys| ==> Before(keys[i], keys[j]) }

  lemma {:induction false} PairsAscend(sizes: seq<nat>)
    ensures Ascends(Pairs(sizes))
    decreases |sizes|
  {
    if sizes != [] {
      var n := |sizes| - 1;
      PairsAscend(sizes[..n]);
      forall i, j | 0 <= i < j < |Pairs(sizes)|
        ensures Before(Pairs(sizes)[i], Pairs(sizes)[j])
      {
        if i < |Pairs(sizes[..n])| <= j {
          assert Pairs(sizes)[i] in Pairs(sizes[..n]);
        }
      }
    }
  }

  lemma {:induction false} OfKindAscends(objs: seq<Obj>, keys: seq<Key>, kind: nat)
    requires AreSections(objs, keys) && Ascends(keys)
    ensures Ascends(OfKind(objs, keys, kind))
    decreases |keys|
  {
    if keys != [] {
      var n := |keys| - 1;
      OfKindAscends(objs, keys[..n], kind);
      var front := OfKind(objs, keys[..n], kind);
      forall k | k in front
        ensures Before(k, keys[n])
      {
        var i :| 0 <= i < n && keys[i] == k;
      }
    }
  }

  predicate SameSort(x: string, y: string) {
    (".text" <= x <==> ".text" <= y) && (".rodata" <= x <==> ".rodata" <= y) && (".bss" <= x <==> ".bss" <= y)
  }

  /** The sections of the image: code first, then read-only data, bss last, all others between,
      and those of one sort in the order in which the objects hold them. */
  lemma OrderByName(objs: seq<Obj>, i: nat, j: nat)
    requires i < j < |LayoutOrder(objs)|
    ensures var k, l := LayoutOrder(objs)[i], LayoutOrder(objs)[j];
            && IsSection(objs, k) && IsSection(objs, l)
            && var x, y := Sec(objs, k).name, Sec(objs, l).name;
            && (".text" <= y ==> ".text" <= x)
            && (".rodata" <= y ==> ".text" <= x || ".rodata" <= x)
            && (".bss" <= x ==> ".bss" <= y)
            && (SameSort(x, y) ==> Before(k, l))
  {
    hide LayoutOrder, OfKind, SectionKind;
    var k, l := LayoutOrder(objs)[i], LayoutOrder(objs)[j];
    NamesKind(Sec(objs, k).name);
    NamesKind(Sec(objs, l).name);
    if SectionKind(Sec(objs, k).name) == SectionKind(Sec(objs, l).name) {
      KindAscends(objs, i, j);
    }
  }

  lemma NamesKind(name: string)
    ensures SectionKind(name) == 0 <==> ".text" <= name
    ensures SectionKind(name) == 1 <==> ".rodata" <= name
    ensures SectionKind(name) == 3 <==> ".bss" <= name
  {
    Prefix(name, ".text");
    Prefix(name, ".rodata");
    Prefix(name, ".bss");
  }

  lemma Prefix(s: string, p: string)
    ensures StartsWith(s, p) <==> p <= s
    ensures |p| > 1 && p <= s ==> |s| > 1 && s[1] == p[1]
  {
    if StartsWith(s, p) {
      assert p == s[..|p|] <= s;
    }
  }

  lemma KindAscends(objs: seq<Obj>, i: nat, j: nat)
    requires i < j < |LayoutOrder(objs)|
    requires var kind := SectionKind(Sec(objs, LayoutOrder(objs)[i]).name);
             SectionKind(Sec(objs, LayoutOrder(objs)[j]).name) == kind
    ensures Before(LayoutOrder(objs)[i], LayoutOrder(objs)[j])
  {
    hide OfKind, SectionKind, Pairs;
    var keys := SectionKeys(objs);
    PairsAscend(seq(|objs|, i requires 0 <= i < |objs| => |objs[i].secs|));
    OfKindAscends(objs, keys, 0);
    OfKindAscends(objs, keys, 1);
    OfKindAscends(objs, keys, 2);
    OfKindAscends(objs, keys, 3);
  }

  datatype Placement = Placement(image: seq<byte>, placed: map<Key, nat>)

  function Zeros(n: nat): seq<byte> { seq(n, i => 0) }

  function PlaceNext(objs: seq<Obj>, base: nat, p: Placement, k: Key): Placement
    requires IsSection(objs, k)
  {
    var s := Sec(objs, k);
    var image := p.image + Zeros(Pad(base + |p.image|, Alignment(s)));
    Placement(image + s.bytes, p.placed[k := base + |image|])
  }

  /** The sections of order, laid out one after another from address base. */
  function Place(objs: seq<Obj>, base: nat, order: seq<Key>): Placement
    requires forall k :: k in order ==> IsSection(objs, k)
    decreases |order|
  {
    if order == [] then Placement([], map[])
    else PlaceNext(objs, base, Place(objs, base, order[..|order| - 1]), order[|order| - 1])
  }

  // What a layout promises.

  function SizeOf(objs: seq<Obj>, k: Key): nat
    requires IsSection(objs, k)
  {
    |Sec(objs, k).bytes|
  }

  ghost predicate AreSections(objs: seq<Obj>, order: seq<Key>) {
    forall k :: k in order ==> IsSection(objs, k)
  }

  ghost predicate ExactlyPlaced(order: seq<Key>, p: Placement) {
    forall k :: k in p.placed <==> k in order
  }

  /** The section's bytes are inside the image, at an address its alignment field divides. */
  ghost predicate SectionAt(objs: seq<Obj>, base: nat, p: Placement, k: Key)
    requires IsSection(objs, k) && k in p.placed
  {
    && base <= p.placed[k]
    && CodeAt(p.image, p.placed[k] - base, Sec(objs, k).bytes)
    && (Sec(objs, k).alignField > 0 ==> p.placed[k] % Sec(objs, k).alignField == 0)
  }

  ghost predicate AllAt(objs: seq<Obj>, base: nat, order: seq<Key>, p: Placement)
    requires AreSections(objs, order) && ExactlyPlaced(order, p)
  {
    forall k :: k in order ==> SectionAt(objs, base, p, k)
  }

  /** Each section ends before the next begins. */
  ghost predicate InOrder(objs: seq<Obj>, order: seq<Key>, p: Placement)
    requires AreSections(objs, order) && ExactlyPlaced(order, p)
  {
    forall i, j :: 0 <= i < j < |order| ==> p.placed[order[i]] + SizeOf(objs, order[i]) <= p.placed[order[j]]
  }

  ghost predicate InSection(objs: seq<Obj>, base: nat, p: Placement, k: Key, a: int)
    requires IsSection(objs, k) && k in p.placed
  {
    p.placed[k] - base <= a < p.placed[k] - base + SizeOf(objs, k)
  }

  /** Bytes that belong to no section are zero. */
  ghost predicate GapsZero(objs: seq<Obj>, base: nat, order: seq<Key>, p: Placement)
    requires AreSections(objs, order) && ExactlyPlaced(order, p)
  {
    forall a :: 0 <= a < |p.image| ==> p.image[a] == 0 || exists k :: k in order && InSection(objs, base, p, k, a)
  }

  /** Where the first n sections end. */
  function EndOf(objs: seq<Obj>, base: nat, order: seq<Key>, p: Placement, n: nat): nat
    requires n <= |order| && AreSections(objs, order) && ExactlyPlaced(order, p)
  {
    if n == 0 then base else p.placed[order[n - 1]] + SizeOf(objs, order[n - 1])
  }

  /** In front of the i-th section lie fewer bytes than its alignment field, or none. */
  ghost predicate Close(objs: seq<Obj>, base: nat, order: seq<Key>, p: Placement, i: nat)
    requires i < |order| && AreSections(objs, order) && ExactlyPlaced(order, p)
  {
    var gap := p.placed[order[i]] - EndOf(objs, base, order, p, i);
    gap == 0 || 0 < gap < Sec(objs, order[i]).alignField
  }

  /** Sections stand close together, and the image ends with the last. */
  ghost predicate Tight(objs: seq<Obj>, base: nat, order: seq<Key>, p: Placement)
    requires AreSections(objs, order) && ExactlyPlaced(order, p)
  {
    && EndOf(objs, base, order, p, |order|) == base + |p.image|
    && forall i: nat :: i < |order| ==> Close(objs, base, order, p, i)
  }

  ghost predicate LaidOut(objs: seq<Obj>, base: nat, order: seq<Key>, p: Placement) {
    && AreSections(objs, order) && ExactlyPlaced(order, p) && Tight(objs, base, order, p)
    && AllAt(objs, base, order, p) && InOrder(objs, order, p) && GapsZero(objs, base, order, p)
  }

  /** Such a layout is the only one: every address is determined. */
  lemma {:induction false} LayoutIsUnique(objs: seq<Obj>, base: nat, order: seq<Key>, p: Placement, q: Placement,
                                          n: nat)
    requires LaidOut(objs, base, order, p) && LaidOut(objs, base, order, q) && n <= |order|
    ensures forall i :: 0 <= i < n ==> p.placed[order[i]] == q.placed[order[i]]
    ensures EndOf(objs, base, order, p, n) == EndOf(objs, base, order, q, n)
  {
    hide GapsZero, CodeAt, InOrder;
    if n > 0 {
      LayoutIsUnique(objs, base, order, p, q, n - 1);
      var k, from := order[n - 1], EndOf(objs, base, order, p, n - 1);
      assert SectionAt(objs, base, p, k) && SectionAt(objs, base, q, k);
      assert Close(objs, base, order, p, n - 1) && Close(objs, base, order, q, n - 1);
      NextMultiple(from, p.placed[k] - from, q.placed[k] - from, Sec(objs, k).alignField);
    }
  }

  lemma NextMultiple(from: nat, x: nat, y: nat, a: nat)
    requires (x == 0 || x < a) && (y == 0 || y < a)
    requires a > 0 ==> (from + x) % a == 0 && (from + y) % a == 0
    ensures x == y
  {
    if a > 0 {
      hide Pad;
      PadMod(from, a);
      MultiplesApart(from + x, from + Pad(from, a), a);
      MultiplesApart(from + y, from + Pad(from, a), a);
      SmallMultiple(x - Pad(from, a), a);
      SmallMultiple(y - Pad(from, a), a);
    }
  }

  lemma SmallMultiple(x: int, a: nat)
    requires a > 0 && x < a && x + a > 0 && x % a == 0
    ensures x == 0
  {
    if x >= 0 {
      DivMod(0, x, a);
    } else {
      DivMod(-1, x + a, a);
    }
  }

  /** What one more section adds to the image and to the addresses. */
  lemma NextPlacement(objs: seq<Obj>, base: nat, k: Key, p: Placement) returns (pad: nat)
    requires IsSection(objs, k) && k !in p.placed
    ensures var q := PlaceNext(objs, base, p, k);
            && q.image == p.image + Zeros(pad) + Sec(objs, k).bytes
            && q.placed == p.placed[k := base + |p.image| + pad]
            && (Sec(objs, k).alignField > 0 ==> (base + |p.image| + pad) % Sec(objs, k).alignField == 0)
            && (pad == 0 || 0 < pad < Sec(objs, k).alignField)
  {
    hide Pad;
    pad := Pad(base + |p.image|, Alignment(Sec(objs, k)));
    PadMod(base + |p.image|, Alignment(Sec(objs, k)));
    AlignmentIsField(Sec(objs, k), base + |p.image| + pad);
  }

  lemma NextAt(objs: seq<Obj>, base: nat, order: seq<Key>, k: Key, p: Placement)
    requires LaidOut(objs, base, order, p) && IsSection(objs, k) && k !in order
    ensures AreSections(objs, order + [k]) && ExactlyPlaced(order + [k], PlaceNext(objs, base, p, k))
    ensures AllAt(objs, base, order + [k], PlaceNext(objs, base, p, k))
  {
    hide PlaceNext, Alignment, GapsZero, InOrder;
    var pad := NextPlacement(objs, base, k, p);
    var q := PlaceNext(objs, base, p, k);
    forall x | x in order
      ensures SectionAt(objs, base, q, x)
    {
      assert SectionAt(objs, base, p, x);
    }
  }

  lemma NextInOrder(objs: seq<Obj>, base: nat, order: seq<Key>, k: Key, p: Placement)
    requires LaidOut(objs, base, order, p) && IsSection(objs, k) && k !in order
    requires AreSections(objs, order + [k]) && ExactlyPlaced(order + [k], PlaceNext(objs, base, p, k))
    ensures InOrder(objs, order + [k], PlaceNext(objs, base, p, k))
  {
    hide PlaceNext, Alignment, GapsZero, CodeAt;
    var pad := NextPlacement(objs, base, k, p);
    forall x | x in order
      ensures p.placed[x] + SizeOf(objs, x) <= base + |p.image|
    {
      assert SectionAt(objs, base, p, x);
      AtInside(p.image, p.placed[x] - base, Sec(objs, x).bytes);
    }
  }

  lemma NextTight(objs: seq<Obj>, base: nat, order: seq<Key>, k: Key, p: Placement)
    requires LaidOut(objs, base, order, p) && IsSection(objs, k) && k !in order
    requires AreSections(objs, order + [k]) && ExactlyPlaced(order + [k], PlaceNext(objs, base, p, k))
    ensures Tight(objs, base, order + [k], PlaceNext(objs, base, p, k))
  {
    hide PlaceNext, Alignment, GapsZero, InOrder, AllAt, SectionKind;
    var pad := NextPlacement(objs, base, k, p);
    var q, after := PlaceNext(objs, base, p, k), order + [k];
    forall i: nat | i <= |order|
      ensures EndOf(objs, base, after, q, i) == EndOf(objs, base, order, p, i)
    {
      assert i > 0 ==> after[i - 1] == order[i - 1];
    }
    forall i | 0 <= i < |after|
      ensures Close(objs, base, after, q, i)
    {
      if i < |order| {
        assert Close(objs, base, order, p, i) && after[i] == order[i];
      }
    }
  }

  lemma AtInside(image: seq<byte>, a: int, b: seq<byte>)
    requires CodeAt(image, a, b)
    ensures a + |b| <= |image|
  {
  }

  lemma NextGaps(objs: seq<Obj>, base: nat, order: seq<Key>, k: Key, p: Placement)
    requires LaidOut(objs, base, order, p) && IsSection(objs, k) && k !in order
    requires AreSections(objs, order + [k]) && ExactlyPlaced(order + [k], PlaceNext(objs, base, p, k))
    ensures GapsZero(objs, base, order + [k], PlaceNext(objs, base, p, k))
  {
    hide PlaceNext, Alignment, AllAt, InOrder;
    var pad := NextPlacement(objs, base, k, p);
    var q := PlaceNext(objs, base, p, k);
    forall a | 0 <= a < |q.image|
      ensures q.image[a] == 0 || exists x :: x in order + [k] && InSection(objs, base, q, x, a)
    {
      if a < |p.image| {
        assert q.image[a] == p.image[a];
        if p.image[a] != 0 {
          var x :| x in order && InSection(objs, base, p, x, a);
          assert x in order + [k] && InSection(objs, base, q, x, a);
        }
      } else if a >= |p.image| + pad {
        assert k in order + [k] && InSection(objs, base, q, k, a);
      }
    }
  }

  /** Every layout keeps the promise. */
  lemma {:induction false} PlaceLaysOut(objs: seq<Obj>, base: nat, order: seq<Key>)
    requires AreSections(objs, order)
    requires forall i, j :: 0 <= i < j < |order| ==> order[i] != order[j]
    ensures LaidOut(objs, base, order, Place(objs, base, order))
    decreases |order|
  {
    if order != [] {
      hide AllAt, InOrder, GapsZero, Tight, ExactlyPlaced, PlaceNext, IsSection;
      var n := |order| - 1;
      var p := Place(objs, base, order[..n]);
      PlaceLaysOut(objs, base, order[..n]);
      NextAt(objs, base, order[..n], order[n], p);
      NextInOrder(objs, base, order[..n], order[n], p);
      NextGaps(objs, base, order[..n], order[n], p);
      NextTight(objs, base, order[..n], order[n], p);
      assert order == order[..n] + [order[n]];
    }
  }

  /** Moving a position by base leaves its padding as it was exactly when the alignment
      divides base. */
  lemma PadShifts(pos: nat, base: nat, a: nat)
    requires a >= 1
    ensures Pad(base + pos, a) == Pad(pos, a) <==> base % a == 0
  {
    hide Pad;
    PadMod(pos, a);
    PadMod(base + pos, a);
    if Pad(base + pos, a) == Pad(pos, a) {
      MultiplesApart(base + pos + Pad(pos, a), pos + Pad(pos, a), a);
    } else if base % a == 0 {
      SamePad(pos, base, a);
    }
  }

  lemma SamePad(pos: nat, base: int, a: nat)
    requires a >= 1 && base % a == 0 && base + pos >= 0
    ensures Pad(base + pos, a) == Pad(pos, a)
  {
    var q, r := pos / a, pos % a;
    assert pos == q * a + r;
    var k := base / a;
    assert base == k * a;
    assert (k + q) * a == k * a + q * a;
    DivMod(k + q, r, a);
  }

  lemma PadMod(pos: nat, a: nat)
    requires a >= 1
    ensures Pad(pos, a) < a && (pos + Pad(pos, a)) % a == 0
  {
    PadIsFirst(pos, a, Pad(pos, a));
  }

  lemma MultiplesApart(x: int, y: int, a: nat)
    requires a >= 1 && x % a == 0 && y % a == 0
    ensures (x - y) % a == 0
  {
    var k := x / a - y / a;
    assert x == (x / a) * a && y == (y / a) * a;
    assert x - y == k * a;
    DivMod(k, 0, a);
  }

  /** Every section's alignment divides base. */
  ghost predicate Divides(objs: seq<Obj>, base: nat, order: seq<Key>)
    requires AreSections(objs, order)
  {
    forall k :: k in order && Sec(objs, k).alignField > 0 ==> base % Sec(objs, k).alignField == 0
  }

  lemma DividesAligns(objs: seq<Obj>, base: nat, order: seq<Key>)
    requires AreSections(objs, order)
    ensures Divides(objs, base, order) <==> forall k :: k in order ==> base % Alignment(Sec(objs, k)) == 0
  {
    hide Alignment;
    forall k | k in order
      ensures base % Alignment(Sec(objs, k)) == 0
         <==> (Sec(objs, k).alignField > 0 ==> base % Sec(objs, k).alignField == 0)
    {
      AlignmentIsField(Sec(objs, k), base);
    }
  }

  /** Laying out at a base that every alignment divides only shifts the addresses. */
  lemma {:induction false} PlaceShifts(objs: seq<Obj>, base: nat, order: seq<Key>)
    requires AreSections(objs, order) && Divides(objs, base, order)
    ensures var p, q := Place(objs, 0, order), Place(objs, base, order);
            && q.image == p.image && (forall k :: k in q.placed <==> k in p.placed)
            && forall k :: k in p.placed ==> q.placed[k] == p.placed[k] + base
    decreases |order|
  {
    hide Alignment, Pad;
    DividesAligns(objs, base, order);
    if order != [] {
      var n := |order| - 1;
      PlaceShifts(objs, base, order[..n]);
      PadShifts(|Place(objs, 0, order[..n]).image|, base, Alignment(Sec(objs, order[n])));
    }
  }

  lemma {:induction false} PlacesExactly(objs: seq<Obj>, base: nat, order: seq<Key>)
    requires AreSections(objs, order)
    ensures forall k :: k in Place(objs, base, order).placed <==> k in order
    decreases |order|
  {
    hide Alignment, Pad;
    if order != [] {
      var n := |order| - 1;
      PlacesExactly(objs, base, order[..n]);
      assert order == order[..n] + [order[n]];
    }
  }

  /** Every section moves by base. */
  ghost predicate Shifts(objs: seq<Obj>, base: nat, order: seq<Key>)
    requires AreSections(objs, order)
  {
    forall k :: k in order ==>
      && k in Place(objs, 0, order).placed && k in Place(objs, base, order).placed
      && Place(objs, base, order).placed[k] == Place(objs, 0, order).placed[k] + base
  }

  /** Every address shifts by base if and only if every alignment divides base. */
  lemma ShiftsExactly(objs: seq<Obj>, base: nat, order: seq<Key>)
    requires AreSections(objs, order) && forall i, j :: 0 <= i < j < |order| ==> order[i] != order[j]
    ensures Shifts(objs, base, order) <==> Divides(objs, base, order)
  {
    hide Place, Alignment;
    PlacesExactly(objs, 0, order);
    PlacesExactly(objs, base, order);
    if Divides(objs, base, order) {
      PlaceShifts(objs, base, order);
    } else {
      DividesAligns(objs, base, order);
      var k :| k in order && base % Alignment(Sec(objs, k)) != 0;
      PlaceLaysOut(objs, 0, order);
      PlaceLaysOut(objs, base, order);
      AlignedBoth(objs, base, order, k);
    }
  }

  lemma AlignedBoth(objs: seq<Obj>, base: nat, order: seq<Key>, k: Key)
    requires AreSections(objs, order) && k in order
    requires LaidOut(objs, 0, order, Place(objs, 0, order)) && LaidOut(objs, base, order, Place(objs, base, order))
    ensures Place(objs, base, order).placed[k] == Place(objs, 0, order).placed[k] + base ==>
              base % Alignment(Sec(objs, k)) == 0
  {
    hide Place, Alignment, InOrder, GapsZero, CodeAt;
    var p, q := Place(objs, 0, order), Place(objs, base, order);
    assert SectionAt(objs, 0, p, k) && SectionAt(objs, base, q, k);
    AlignmentIsField(Sec(objs, k), p.placed[k]);
    AlignmentIsField(Sec(objs, k), q.placed[k]);
    if q.placed[k] == p.placed[k] + base {
      MultiplesApart(q.placed[k], p.placed[k], Alignment(Sec(objs, k)));
    }
  }

  /** An earlier section's address does not depend on the later ones. */
  lemma {:induction false} PlacedEarly(objs: seq<Obj>, base: nat, order: seq<Key>, i: nat, m: nat)
    requires AreSections(objs, order) && i < m <= |order|
    requires forall i, j :: 0 <= i < j < |order| ==> order[i] != order[j]
    ensures order[i] in Place(objs, base, order).placed && order[i] in Place(objs, base, order[..m]).placed
    ensures Place(objs, base, order).placed[order[i]] == Place(objs, base, order[..m]).placed[order[i]]
    decreases |order|
  {
    hide PlaceNext, IsSection;
    if m < |order| {
      var n := |order| - 1;
      PlacedEarly(objs, base, order[..n], i, m);
      assert order[..n][..m] == order[..m];
      NextKeeps(objs, base, Place(objs, base, order[..n]), order[n], order[i]);
    } else {
      assert order[..m] == order;
      PlacesExactly(objs, base, order);
    }
  }

  lemma NextKeeps(objs: seq<Obj>, base: nat, p: Placement, k: Key, x: Key)
    requires IsSection(objs, k) && k != x && x in p.placed
    ensures x in PlaceNext(objs, base, p, k).placed && PlaceNext(objs, base, p, k).placed[x] == p.placed[x]
  {
  }

  /** A section moves by base when its alignment and those of the sections before it divide
      base, whatever comes after. */
  lemma ShiftsUpTo(objs: seq<Obj>, base: nat, order: seq<Key>, i: nat)
    requires AreSections(objs, order) && i < |order| && Divides(objs, base, order[..i + 1])
    requires forall i, j :: 0 <= i < j < |order| ==> order[i] != order[j]
    ensures order[i] in Place(objs, 0, order).placed && order[i] in Place(objs, base, order).placed
    ensures Place(objs, base, order).placed[order[i]] == Place(objs, 0, order).placed[order[i]] + base
  {
    hide Place, Alignment;
    PlaceShifts(objs, base, order[..i + 1]);
    PlacedEarly(objs, 0, order, i, i + 1);
    PlacedEarly(objs, base, order, i, i + 1);
  }

  /** Of any two alignments one divides the other, as powers of two do. */
  ghost predicate Chained(objs: seq<Obj>, order: seq<Key>)
    requires AreSections(objs, order)
  {
    forall j, k :: j in order && k in order && Sec(objs, j).alignField > 0 && Sec(objs, k).alignField > 0 ==>
      Sec(objs, j).alignField % Sec(objs, k).alignField == 0 || Sec(objs, k).alignField % Sec(objs, j).alignField == 0
  }

  lemma ChainedPair(objs: seq<Obj>, order: seq<Key>, j: Key, k: Key)
    requires AreSections(objs, order) && Chained(objs, order) && j in order && k in order
    ensures var a, b := Alignment(Sec(objs, j)), Alignment(Sec(objs, k)); a % b == 0 || b % a == 0
  {
  }

  /** How far the end of the layout moves. */
  ghost function EndShift(objs: seq<Obj>, base: nat, order: seq<Key>): int
    requires AreSections(objs, order)
  {
    base + |Place(objs, base, order).image| - |Place(objs, 0, order).image|
  }

  /** Once an alignment that does not divide base has been met, the distance moved stays a
      multiple of such an alignment. */
  lemma {:induction false} Misplaced(objs: seq<Obj>, base: nat, order: seq<Key>) returns (k: Key)
    requires AreSections(objs, order) && Chained(objs, order) && !Divides(objs, base, order)
    ensures k in order && base % Alignment(Sec(objs, k)) != 0
            && EndShift(objs, base, order) % Alignment(Sec(objs, k)) == 0
    decreases |order|
  {
    hide Alignment, PlaceNext;
    var n := |order| - 1;
    var a := Alignment(Sec(objs, order[n]));
    assert order == order[..n] + [order[n]];
    var before := EndShift(objs, base, order[..n]);
    DividesAligns(objs, base, order);
    DividesAligns(objs, base, order[..n]);
    if Divides(objs, base, order[..n]) {
      k := order[n];
      StartShift(objs, base, order);
    } else {
      k := Misplaced(objs, base, order[..n]);
      ChainedPair(objs, order, k, order[n]);
      if Alignment(Sec(objs, k)) % a == 0 {
        MultipleOf(before, Alignment(Sec(objs, k)), a);
        SameStep(objs, base, order);
      } else {
        if base % a == 0 {
          MultipleOf(base, a, Alignment(Sec(objs, k)));
        }
        k := order[n];
        StartShift(objs, base, order);
      }
    }
  }

  lemma MultipleOf(x: int, a: nat, b: nat)
    requires a >= 1 && b >= 1 && x % a == 0 && a % b == 0
    ensures x % b == 0
  {
    var k, m := x / a, a / b;
    assert x == k * a && a == m * b;
    assert x == (k * m) * b;
    DivMod(k * m, 0, b);
  }

  /** The last section's start, and with it the end, moves by a multiple of its alignment. */
  lemma StartShift(objs: seq<Obj>, base: nat, order: seq<Key>)
    requires AreSections(objs, order) && order != []
    ensures EndShift(objs, base, order) % Alignment(Sec(objs, order[|order| - 1])) == 0
  {
    var n := |order| - 1;
    var a := Alignment(Sec(objs, order[n]));
    var x, y := base + |Place(objs, base, order[..n]).image|, |Place(objs, 0, order[..n]).image|;
    PadMod(x, a);
    PadMod(y, a);
    hide Alignment, Pad, Zeros;
    MultiplesApart(x + Pad(x, a), y + Pad(y, a), a);
  }

  /** A section whose alignment divides the distance moved so far moves by that distance. */
  lemma SameStep(objs: seq<Obj>, base: nat, order: seq<Key>)
    requires AreSections(objs, order) && order != []
    requires EndShift(objs, base, order[..|order| - 1]) % Alignment(Sec(objs, order[|order| - 1])) == 0
    ensures EndShift(objs, base, order) == EndShift(objs, base, order[..|order| - 1])
  {
    hide Alignment, Pad;
    var n := |order| - 1;
    SamePad(|Place(objs, 0, order[..n]).image|, EndShift(objs, base, order[..n]), Alignment(Sec(objs, order[n])));
  }

  /** With such alignments a section moves by base if and only if its alignment and those of
      all the sections before it divide base. */
  lemma MovesByBase(objs: seq<Obj>, base: nat, order: seq<Key>, i: nat)
    requires AreSections(objs, order) && i < |order| && Chained(objs, order[..i + 1])
    requires forall i, j :: 0 <= i < j < |order| ==> order[i] != order[j]
    ensures order[i] in Place(objs, 0, order).placed && order[i] in Place(objs, base, order).placed
    ensures Place(objs, base, order).placed[order[i]] == Place(objs, 0, order).placed[order[i]] + base
       <==> Divides(objs, base, order[..i + 1])
  {
    hide Place, Alignment;
    var upTo := order[..i + 1];
    PlacedEarly(objs, 0, order, i, i + 1);
    PlacedEarly(objs, base, order, i, i + 1);
    if Divides(objs, base, upTo) {
      ShiftsUpTo(objs, base, order, i);
    } else {
      DividesAligns(objs, base, upTo);
      var k := Misplaced(objs, base, upTo);
      assert upTo[|upTo| - 1] == order[i];
      EndIsStart(objs, 0, upTo);
      EndIsStart(objs, base, upTo);
    }
  }

  lemma EndIsStart(objs: seq<Obj>, base: nat, order: seq<Key>)
    requires AreSections(objs, order) && order != []
    ensures var k := order[|order| - 1];
            && k in Place(objs, base, order).placed
            && Place(objs, base, order).placed[k] + SizeOf(objs, k) == base + |Place(objs, base, order).image|
  {
  }

  /** One section aligned to 8 keeps address 0 at base 0 and moves to 8 at base 8, but to 16
      at base 12. */
  lemma EightAtTwelve(bytes: seq<byte>)
    ensures var objs := [Obj([Section(".text", true, 8, bytes)], [], [])];
            && (0, 0) in Place(objs, 0, [(0, 0)]).placed && Place(objs, 0, [(0, 0)]).placed[(0, 0)] == 0
            && (0, 0) in Place(objs, 8, [(0, 0)]).placed && Place(objs, 8, [(0, 0)]).placed[(0, 0)] == 8
            && (0, 0) in Place(objs, 12, [(0, 0)]).placed && Place(objs, 12, [(0, 0)]).placed[(0, 0)] == 16
  {
    var objs := [Obj([Section(".text", true, 8, bytes)], [], [])];
    PlaceOne(objs, 0, (0, 0));
    PlaceOne(objs, 8, (0, 0));
    PlaceOne(objs, 12, (0, 0));
  }

  lemma PlaceOne(objs: seq<Obj>, base: nat, k: Key)
    requires IsSection(objs, k)
    ensures var pad := Pad(base, Alignment(Sec(objs, k)));
            Place(objs, base, [k]) == Placement(Zeros(pad) + Sec(objs, k).bytes, map[k := base + pad])
  {
    hide Pad, Alignment;
    assert [k][..0] == [];
    assert [] + Zeros(Pad(base, Alignment(Sec(objs, k)))) == Zeros(Pad(base, Alignment(Sec(objs, k))));
  }

  // The loops of _layout_and_resolve that place sections.

  method EnumeratePairs(sizes: seq<nat>) returns (keys: seq<Key>)
    ensures keys == Pairs(sizes)
  {
    hide Pairs;
    keys := [];
    PairsNone();
    assert sizes[..0] == [];
    for i := 0 to |sizes|
      invariant keys == Pairs(sizes[..i])
    {
      PairsSnoc(sizes[..i], sizes[i]);
      assert sizes[..i] + [sizes[i]] == sizes[..i + 1];
      ghost var before := keys;
      for j := 0 to sizes[i]
        invariant keys == before + PairRow(i, j)
      {
        assert PairRow(i, j) + [(i, j)] == PairRow(i, j + 1);
        keys := keys + [(i, j)];
      }
    }
    assert sizes[..|sizes|] == sizes;
  }

  lemma PairsNone()
    ensures Pairs([]) == []
  {
  }

  lemma PairsSnoc(sizes: seq<nat>, n: nat)
    ensures Pairs(sizes + [n]) == Pairs(sizes) + PairRow(|sizes|, n)
  {
    assert (sizes + [n])[..|sizes|] == sizes;
  }

  lemma OfKindNone(objs: seq<Obj>)
    ensures forall kind: nat :: OfKind(objs, [], kind) == []
  {
  }

  lemma OfKindSnoc(objs: seq<Obj>, keys: seq<Key>, i: nat, kind: nat)
    requires i < |keys| && forall k :: k in keys ==> IsSection(objs, k)
    ensures OfKind(objs, keys[..i + 1], kind) == OfKind(objs, keys[..i], kind)
              + (if Sec(objs, keys[i]).alloc && SectionKind(Sec(objs, keys[i]).name) == kind then [keys[i]] else [])
  {
    assert keys[..i + 1][..i] == keys[..i];
  }

  /** The four lists hold the allocatable ones of the first n keys, by kind. */
  ghost predicate Sorted(objs: seq<Obj>, keys: seq<Key>, n: nat, byKind: seq<seq<Key>>)
    requires n <= |keys| && AreSections(objs, keys)
  {
    |byKind| == 4 && forall kind :: 0 <= kind < 4 ==> byKind[kind] == OfKind(objs, keys[..n], kind)
  }

  lemma SortedNone(objs: seq<Obj>, keys: seq<Key>)
    requires AreSections(objs, keys)
    ensures Sorted(objs, keys, 0, [[], [], [], []])
  {
    OfKindNone(objs);
    hide OfKind;
    assert keys[..0] == [];
  }

  lemma SortedNext(objs: seq<Obj>, keys: seq<Key>, n: nat, byKind: seq<seq<Key>>)
    requires n < |keys| && AreSections(objs, keys) && Sorted(objs, keys, n, byKind)
    ensures var s := Sec(objs, keys[n]);
            var kind := SectionKind(s.name);
            Sorted(objs, keys, n + 1, if s.alloc then byKind[kind := byKind[kind] + [keys[n]]] else byKind)
  {
    hide OfKind, SectionKind, Sec, IsSection;
    OfKindSnoc(objs, keys, n, 0);
    OfKindSnoc(objs, keys, n, 1);
    OfKindSnoc(objs, keys, n, 2);
    OfKindSnoc(objs, keys, n, 3);
  }

  lemma SortedAll(objs: seq<Obj>, keys: seq<Key>, byKind: seq<seq<Key>>)
    requires AreSections(objs, keys) && Sorted(objs, keys, |keys|, byKind)
    ensures forall kind :: 0 <= kind < 4 ==> byKind[kind] == OfKind(objs, keys, kind) && AreSections(objs, byKind[kind])
  {
    assert keys[..|keys|] == keys;
    hide OfKind;
  }

  /** by_kind: four lists of the allocatable sections. */
  method Classify(objs: seq<Obj>) returns (byKind: seq<seq<Key>>)
    ensures |byKind| == 4
    ensures forall kind :: 0 <= kind < 4 ==>
              byKind[kind] == OfKind(objs, SectionKeys(objs), kind) && AreSections(objs, byKind[kind])
  {
    hide OfKind, SectionKind, Sorted;
    var keys := EnumeratePairs(seq(|objs|, i requires 0 <= i < |objs| => |objs[i].secs|));
    byKind := [[], [], [], []];
    SortedNone(objs, keys);
    for i := 0 to |keys|
      invariant |byKind| == 4 && Sorted(objs, keys, i, byKind)
    {
      SortedNext(objs, keys, i, byKind);
      if Sec(objs, keys[i]).alloc {
        var kind := SectionKind(Sec(objs, keys[i]).name);
        byKind := byKind[kind := byKind[kind] + [keys[i]]];
      }
    }
    SortedAll(objs, keys, byKind);
  }

  /** Appending zeros until the address is aligned, then the section's bytes. */
  method PlaceSection(objs: seq<Obj>, base: nat, p: Placement, k: Key) returns (q: Placement)
    requires IsSection(objs, k)
    ensures q == PlaceNext(objs, base, p, k)
  {
    hide Pad;
    var align := Alignment(Sec(objs, k));
    var image := p.image;
    ghost var n: nat := 0;
    ghost var pad := Pad(base + |p.image|, align);
    PadIsFirst(base + |p.image|, align, 0);
    while (base + |image|) % align != 0
      invariant n <= pad && image == p.image + Zeros(n)
      invariant (base + |image|) % align == 0 <==> n == pad
      decreases pad - n
    {
      PadIsFirst(base + |p.image|, align, n + 1);
      image := image + [0];
      n := n + 1;
    }
    q := Placement(image + Sec(objs, k).bytes, p.placed[k := base + |image|]);
  }

  lemma PlaceSnoc(objs: seq<Obj>, base: nat, order: seq<Key>, k: Key)
    requires AreSections(objs, order) && IsSection(objs, k)
    ensures AreSections(objs, order + [k])
    ensures Place(objs, base, order + [k]) == PlaceNext(objs, base, Place(objs, base, order), k)
  {
    assert (order + [k])[..|order|] == order;
  }

  method Layout(objs: seq<Obj>, base: nat) returns (p: Placement)
    ensures p == Place(objs, base, LayoutOrder(objs))
  {
    hide Place, PlaceNext, OfKind, SectionKeys, Concat, LayoutOrder;
    var byKind := Classify(objs);
    ConcatNone();
    p := Placement([], map[]);
    ghost var done: seq<Key> := [];
    PlaceNone(objs, base);
    for kind := 0 to 4
      invariant AreSections(objs, done) && p == Place(objs, base, done)
      invariant done == Concat(byKind[..kind])
    {
      var keys := byKind[kind];
      ghost var before := done;
      for i := 0 to |keys|
        invariant done == before + keys[..i]
        invariant AreSections(objs, done) && p == Place(objs, base, done)
      {
        PlaceSnoc(objs, base, done, keys[i]);
        p := PlaceSection(objs, base, p, keys[i]);
        done := done + [keys[i]];
      }
      ConcatSnoc(byKind[..kind], keys);
      assert byKind[..kind] + [keys] == byKind[..kind + 1];
    }
    ConcatFour(byKind);
    assert byKind[..4] == byKind;
    OrderIsConcat(objs, byKind);
  }

  lemma PlaceNone(objs: seq<Obj>, base: nat)
    ensures Place(objs, base, []) == Placement([], map[])
  {
  }

  function Concat(s: seq<seq<Key>>): seq<Key> {
    if s == [] then [] else Concat(s[..|s| - 1]) + s[|s| - 1]
  }

  lemma ConcatSnoc(s: seq<seq<Key>>, x: seq<Key>)
    ensures Concat(s + [x]) == Concat(s) + x
  {
    assert (s + [x])[..|s|] == s;
  }

  lemma ConcatFour(s: seq<seq<Key>>)
    requires |s| == 4
    ensures Concat(s) == s[0] + s[1] + s[2] + s[3]
  {
    hide Concat;
    var a, b, c, d := s[0], s[1], s[2], s[3];
    ConcatNone();
    ConcatSnoc([], a);
    ConcatSnoc([a], b);
    ConcatSnoc([a, b], c);
    ConcatSnoc([a, b, c], d);
    assert [] + [a] == [a] && [a] + [b] == [a, b] && [a, b] + [c] == [a, b, c] && s == [a, b, c] + [d];
    assert [] + a == a;
  }

  lemma ConcatNone()
    ensures Concat([]) == []
  {
  }

  lemma OrderIsConcat(objs: seq<Obj>, byKind: seq<seq<Key>>)
    requires |byKind| == 4
    requires forall kind :: 0 <= kind < 4 ==> byKind[kind] == OfKind(objs, SectionKeys(objs), kind)
    ensures LayoutOrder(objs) == byKind[0] + byKind[1] + byKind[2] + byKind[3]
  {
  }
}
