/** Whole runs against the allocator of libc/stdlib.c: any requests in any order, and stores
    into what they returned. */
module HeapSession {
  import opened Words
  import opened Memory
  import opened HeapBlocks
  import opened HeapPayload
  import opened Heap

  /** What a caller may do: the four calls, and a store of one byte at offset k from p. */
  datatype Request =
    | Malloc(n: word)
    | Calloc(count: word, size: word)
    | Free(p: nat)
    | Realloc(p: nat, n: word)
    | Store(p: nat, k: nat, v: byte)

  /** What a caller knows of a pointer it holds: how many bytes it asked for, and what it last
      stored where. */
  datatype Owned = Owned(size: nat, bytes: map<nat, byte>)

  type Contents = map<nat, Owned>

  /** Requests above this wrap when they are rounded up to words. */
  const LARGEST := 0xFFFF_FFFC

  function Obtained(c: Contents, p: nat, o: Owned): Contents { if p == 0 then c else c[p := o] }

  /** What a caller holds after a malloc of n bytes that returned q: nothing usable if n wraps. */
  function Uninitialised(n: word): Owned { Owned(if n <= LARGEST then n else 0, map[]) }

  function ZeroBytes(n: nat): Owned { Owned(n, Zeros(n)) }

  function Zeros(n: nat): (z: map<nat, byte>)
    ensures forall k: nat :: k in z <==> k < n
    ensures forall k: nat :: k in z ==> z[k] == 0
  {
    if n == 0 then map[] else Zeros(n - 1)[n - 1 := 0]
  }

  /** The first n bytes. */
  function Resized(o: Owned, n: nat): Owned { Owned(n, map k | k in o.bytes && k < n :: o.bytes[k]) }

  /** What a caller holds after a request that returned q. A pointer it does not hold is not
      passed on, nor a size that wraps, nor a store behind the end. */
  function Effect(r: Request, q: nat, c: Contents): Contents {
    match r
    case Malloc(n) => Obtained(c, q, Uninitialised(n))
    case Calloc(count, size) =>
      if Product(count, size) > LARGEST then c else Obtained(c, q, ZeroBytes(Product(count, size)))
    case Free(p) => c - {p}
    case Realloc(p, n) =>
      if p == 0 then Obtained(c, q, Uninitialised(n))
      else if p !in c || n > LARGEST then c
      else if n == 0 then c - {p}
      else if q == 0 then c
      else (c - {p})[q := Resized(c[p], n)]
    case Store(p, k, v) =>
      if p in c && k < c[p].size then c[p := Owned(c[p].size, c[p].bytes[k := v])] else c
  }

  /** What a caller holds after a run, given what each request returned. */
  function After(requests: seq<Request>, answers: seq<nat>): Contents
    requires |answers| == |requests|
  {
    if requests == [] then map[]
    else
      var n := |requests| - 1;
      Effect(requests[n], answers[n], After(requests[..n], answers[..n]))
  }

  // What the heap must hold for that.

  /** The payload of x holds what its owner stored. */
  ghost predicate Holds(m: seq<word>, x: Block, o: Owned) {
    && x.Next() <= |m| && o.size <= 4 * x.size
    && forall k :: k in o.bytes ==> k < o.size && HeapByte(m, Payload(x) + k) == o.bytes[k]
  }

  /** The caller holds pointers to the live blocks and no others, and each has its contents. */
  ghost predicate Remembers(m: seq<word>, live: set<Block>, c: Contents) {
    && c.Keys == PointersOf(live)
    && forall x :: x in live ==> Payload(x) in c && Holds(m, x, c[Payload(x)])
  }

  lemma HoldsMoved(m: seq<word>, n: seq<word>, x: Block, y: Block, o: Owned)
    requires Holds(m, x, o) && SamePayload(m, n, x, y)
    ensures Holds(n, y, o)
  {
    hide HeapByte;
    forall k | k in o.bytes
      ensures HeapByte(n, Payload(y) + k) == o.bytes[k]
    {
      ByteMoved(m, n, x, y, k);
    }
  }

  lemma ByteMoved(m: seq<word>, n: seq<word>, x: Block, y: Block, k: nat)
    requires SamePayload(m, n, x, y) && k < 4 * x.size
    ensures (Payload(x) + k) / 4 < |m| && (Payload(y) + k) / 4 < |n|
    ensures HeapByte(n, Payload(y) + k) == HeapByte(m, Payload(x) + k)
  {
    hide WordBytes;
    WordOf(x, k);
    WordOf(y, k);
    assert m[x.at + 2..x.Next()][k / 4] == m[x.at + 2 + k / 4];
    assert n[y.at + 2..y.at + 2 + x.size][k / 4] == n[y.at + 2 + k / 4];
  }

  lemma WordOf(x: Block, k: nat)
    ensures (Payload(x) + k) / 4 == x.at + 2 + k / 4 && (Payload(x) + k) % 4 == k % 4
  {
  }

  lemma HoldsInside(m: seq<word>, x: Block, o: Owned, k: nat)
    requires Holds(m, x, o) && k < o.size
    ensures x.at + 2 <= (Payload(x) + k) / 4 < x.Next() <= |m|
  {
    hide WordBytes;
  }

  lemma HoldsStore(m: seq<word>, n: seq<word>, x: Block, o: Owned, k: nat, v: byte)
    requires Holds(m, x, o) && k < o.size && Filled(m, n, Payload(x) + k, 1, v)
    ensures Holds(n, x, Owned(o.size, o.bytes[k := v]))
  {
    hide HeapByte;
  }

  lemma HoldsSame(m: seq<word>, n: seq<word>, x: Block, o: Owned)
    requires Holds(m, x, o) && SameBlock(m, n, x)
    ensures Holds(n, x, o)
  {
    SameHere(m, n, x);
    assert SamePayload(m, n, x, x);
    hide Holds, SameBlock, SamePayload;
    HoldsMoved(m, n, x, x, o);
  }

  lemma HoldsLess(m: seq<word>, x: Block, o: Owned, n: nat)
    requires Holds(m, x, o) && n <= 4 * x.size
    ensures Holds(m, x, Resized(o, n))
  {
    hide WordBytes, HeapByte;
  }

  lemma HoldsNothing(m: seq<word>, x: Block, n: nat)
    requires x.Next() <= |m| && n <= 4 * x.size
    ensures Holds(m, x, Owned(n, map[]))
  {
  }

  lemma HoldsZeros(m: seq<word>, x: Block, n: nat)
    requires x.Next() <= |m| && n <= 4 * x.size && Zeroed(m, Payload(x), n)
    ensures Holds(m, x, ZeroBytes(n))
  {
    hide WordBytes;
  }

  lemma StillHeld(m: seq<word>, n: seq<word>, live: set<Block>, c: Contents)
    requires Remembers(m, live, c) && Untouched(m, n, live)
    ensures Remembers(n, live, c)
  {
    hide Holds, SameBlock;
    forall x | x in live
      ensures Holds(n, x, c[Payload(x)])
    {
      HoldsSame(m, n, x, c[Payload(x)]);
    }
  }

  /** No two of these blocks start at the same place. */
  ghost predicate Distinct(live: set<Block>) { forall x, y :: x in live && y in live && x.at == y.at ==> x == y }

  lemma LiveDistinct(m: seq<word>)
    requires Tiles(m, 0, HEAP_WORDS)
    ensures Distinct(UsedIn(Blocks(m, 0, HEAP_WORDS)))
  {
    hide Tiles, Blocks, UsedIn;
    var live := UsedIn(Blocks(m, 0, HEAP_WORDS));
    forall x | x in live
      ensures x.at + 2 <= |m| && x == BlockAt(m, x.at)
    {
      UsedInside(m, x);
    }
  }

  lemma RememberNew(m: seq<word>, live: set<Block>, now: set<Block>, x: Block, need: nat, c: Contents, o: Owned)
    requires Remembers(m, live, c) && NewBlock(live, now, x, need) && Distinct(now) && Holds(m, x, o)
    ensures Remembers(m, now, c[Payload(x) := o])
  {
    hide Holds;
    PointerAdded(live, now, x, need);
  }

  lemma Forget(m: seq<word>, live: set<Block>, x: Block, c: Contents)
    requires Remembers(m, live, c) && x in live && Distinct(live)
    ensures Remembers(m, live - {x}, c - {Payload(x)})
  {
    hide Holds;
  }

  /** Other contents for a block that stays. */
  lemma RememberAgain(m: seq<word>, n: seq<word>, live: set<Block>, x: Block, c: Contents, o: Owned)
    requires Remembers(m, live, c) && x in live && Distinct(live) && Untouched(m, n, live - {x}) && Holds(n, x, o)
    ensures Remembers(n, live, c[Payload(x) := o])
  {
    hide Holds, SameBlock;
    forall y | y in live && y != x
      ensures Holds(n, y, c[Payload(y)])
    {
      HoldsSame(m, n, y, c[Payload(y)]);
    }
  }

  ghost predicate Good(a: Allocator, c: Contents)
    reads a, a.mem
  {
    a.Valid() && Remembers(a.mem[..], a.Live(), c)
  }

  lemma GoodDistinct(a: Allocator)
    requires a.Valid()
    ensures Distinct(a.Live())
  {
    hide Tiles, Blocks, NoAdjacentFree;
    if a.started {
      LiveDistinct(a.mem[..]);
    }
  }

  method ServeMalloc(a: Allocator, n: word, ghost c: Contents) returns (q: nat)
    requires Good(a, c)
    modifies a`started, a.mem
    ensures a.mem == old(a.mem) && Good(a, Obtained(c, q, Uninitialised(n)))
  {
    hide Tiles, Blocks, NoAdjacentFree, UsedIn, HandsOut, Holds, Untouched, NewBlock, RoundUp, Remembers;
    ghost var m, live := a.mem[..], a.Live();
    q := a.Malloc(n);
    StillHeld(m, a.mem[..], live, c);
    if q != 0 {
      GoodDistinct(a);
      FreshBlock(a, live, q, n);
      HoldsNothing(a.mem[..], a.BlockOf(q), Uninitialised(n).size);
      RememberNew(a.mem[..], live, a.Live(), a.BlockOf(q), RoundUp(n) / 4, c, Uninitialised(n));
    }
  }

  lemma FreshBlock(a: Allocator, live: set<Block>, q: nat, n: word)
    requires a.Valid() && a.IsLive(q) && NewBlock(live, a.Live(), a.BlockOf(q), RoundUp(n) / 4)
    ensures Payload(a.BlockOf(q)) == q && a.BlockOf(q).Next() <= |a.mem[..]|
    ensures n <= LARGEST ==> n <= 4 * a.BlockOf(q).size
  {
    hide Tiles, Blocks, NoAdjacentFree, UsedIn;
    UsedInside(a.mem[..], a.BlockOf(q));
    if n <= LARGEST {
      NewBlockFits(live, a.Live(), a.BlockOf(q), n);
    }
  }

  method ServeCalloc(a: Allocator, count: word, size: word, ghost c: Contents) returns (q: nat)
    requires Good(a, c) && Product(count, size) <= LARGEST
    modifies a`started, a.mem
    ensures a.mem == old(a.mem) && Good(a, Obtained(c, q, ZeroBytes(Product(count, size))))
  {
    hide Tiles, Blocks, NoAdjacentFree, UsedIn, HandsOut, Holds, Untouched, NewBlock, RoundUp, Remembers, Product,
      Zeroed;
    ghost var m, live := a.mem[..], a.Live();
    q := a.Calloc(count, size);
    StillHeld(m, a.mem[..], live, c);
    if q != 0 {
      GoodDistinct(a);
      FreshBlock(a, live, q, Product(count, size));
      HoldsZeros(a.mem[..], a.BlockOf(q), Product(count, size));
      RememberNew(a.mem[..], live, a.Live(), a.BlockOf(q), RoundUp(Product(count, size)) / 4, c,
                  ZeroBytes(Product(count, size)));
    }
  }

  lemma HeldIsLive(a: Allocator, c: Contents, p: nat)
    requires Good(a, c) && p in c
    ensures a.IsLive(p) && Payload(a.BlockOf(p)) == p && Holds(a.mem[..], a.BlockOf(p), c[p])
  {
    hide Tiles, Blocks, NoAdjacentFree, UsedIn, Holds;
    a.IsHeld(p);
  }

  method ServeFree(a: Allocator, p: nat, ghost c: Contents)
    requires Good(a, c) && p in c
    modifies a.mem
    ensures a.mem == old(a.mem) && Good(a, c - {p})
  {
    hide Tiles, Blocks, NoAdjacentFree, UsedIn, Holds, Untouched, Releases, Remembers;
    HeldIsLive(a, c, p);
    GoodDistinct(a);
    ghost var m := a.mem[..];
    Forget(m, a.Live(), a.BlockOf(p), c);
    a.Free(p);
    StillHeld(m, a.mem[..], a.Live(), c - {p});
  }

  method ServeRealloc(a: Allocator, p: nat, n: word, ghost c: Contents) returns (q: nat)
    requires Good(a, c) && p in c && 0 < n <= LARGEST
    modifies a`started, a.mem
    ensures a.mem == old(a.mem) && Good(a, if q == 0 then c else (c - {p})[q := Resized(c[p], n)])
  {
    hide Tiles, Blocks, NoAdjacentFree, UsedIn, Holds, Untouched, HandsOut, Remembers, Moves, SamePayload, FirstFit,
      RoundUp;
    HeldIsLive(a, c, p);
    GoodDistinct(a);
    ghost var m, live, x := a.mem[..], a.Live(), a.BlockOf(p);
    q := a.Realloc(p, n);
    if n <= 4 * x.size {
      HoldsLess(m, x, c[p], n);
      Unmoved(m, live, x, c, Resized(c[p], n));
    } else if q == 0 {
      StillHeld(m, a.mem[..], live, c);
    } else {
      GoodDistinct(a);
      BlockMoved(a, live, x, q, n);
      Moved(m, a.mem[..], live, a.Live(), x, a.BlockOf(q), RoundUp(n) / 4, c, n);
    }
  }

  lemma BlockMoved(a: Allocator, live: set<Block>, x: Block, q: nat, n: word)
    requires a.Valid() && a.IsLive(q) && Moves(live, a.Live(), x, a.BlockOf(q), RoundUp(n) / 4) && n <= LARGEST
    ensures Payload(a.BlockOf(q)) == q && n <= 4 * a.BlockOf(q).size
  {
    RoundUpCovers(n);
  }

  lemma Unmoved(m: seq<word>, live: set<Block>, x: Block, c: Contents, o: Owned)
    requires Remembers(m, live, c) && x in live && Distinct(live) && Holds(m, x, o)
    ensures Remembers(m, live, (c - {Payload(x)})[Payload(x) := o])
  {
    hide Holds;
    RememberAgain(m, m, live, x, c, o);
    assert (c - {Payload(x)})[Payload(x) := o] == c[Payload(x) := o];
  }

  /** realloc into a new block: the old contents are found there, as far as they fit. */
  lemma Moved(m: seq<word>, n: seq<word>, live: set<Block>, now: set<Block>, x: Block, y: Block, need: nat, c: Contents,
              size: nat)
    requires Remembers(m, live, c) && Moves(live, now, x, y, need) && Untouched(m, n, live - {x})
    requires SamePayload(m, n, x, y) && Distinct(live) && Distinct(now) && size <= 4 * y.size
    ensures Payload(x) in c && Remembers(n, now, (c - {Payload(x)})[Payload(y) := Resized(c[Payload(x)], size)])
  {
    var o := c[Payload(x)];
    HoldsMoved(m, n, x, y, o);
    HoldsLess(n, y, o, size);
    Forget(m, live, x, c);
    StillHeld(m, n, live - {x}, c - {Payload(x)});
    hide Holds, Remembers, SamePayload;
    RememberNew(n, live - {x}, now, y, need, c - {Payload(x)}, Resized(o, size));
  }

  method ServeStore(a: Allocator, p: nat, k: nat, v: byte, ghost c: Contents)
    requires Good(a, c) && p in c && k < c[p].size
    modifies a.mem
    ensures Good(a, c[p := Owned(c[p].size, c[p].bytes[k := v])])
  {
    hide Tiles, Blocks, NoAdjacentFree, WordBytes, PutByte, HeapByte, Remembers, Holds, Filled, SameBlock;
    HeldIsLive(a, c, p);
    GoodDistinct(a);
    ghost var m, x := a.mem[..], a.BlockOf(p);
    HoldsInside(m, x, c[p], k);
    a.mem[(p + k) / 4] := PutByte(a.mem[(p + k) / 4], (p + k) % 4, v);
    BytePut(m, a.mem[..], p + k, v);
    UsedInside(m, x);
    PayloadStores(m, a.mem[..], x);
    HoldsStore(m, a.mem[..], x, c[p], k, v);
    RememberAgain(m, a.mem[..], a.Live(), x, c, Owned(c[p].size, c[p].bytes[k := v]));
  }

  method Serve(a: Allocator, r: Request, c: Contents) returns (q: nat)
    requires Good(a, c)
    modifies a`started, a.mem
    ensures a.mem == old(a.mem) && Good(a, Effect(r, q, c))
  {
    hide Good, Product, ZeroBytes, Resized;
    q := 0;
    match r {
      case Malloc(n) =>
        q := ServeMalloc(a, n, c);
      case Calloc(count, size) =>
        if Product(count, size) <= LARGEST {
          q := ServeCalloc(a, count, size, c);
        }
      case Free(p) =>
        if p in c {
          ServeFree(a, p, c);
        } else {
          assert c - {p} == c;
        }
      case Realloc(p, n) =>
        if p == 0 {
          q := ServeMalloc(a, n, c);
        } else if p in c && n == 0 {
          ServeFree(a, p, c);
        } else if p in c && n <= LARGEST {
          q := ServeRealloc(a, p, n, c);
        }
      case Store(p, k, v) =>
        if p in c && k < c[p].size {
          ServeStore(a, p, k, v, c);
        }
    }
  }

  /** A caller's run from an empty heap. What it holds at the end is what is in use; every byte
      it stored and did not give back is still there, wherever realloc has moved it; and when
      it has given everything back the heap is one block again. */
  method Session(a: Allocator, requests: seq<Request>) returns (answers: seq<nat>)
    requires a.Valid() && a.Live() == {}
    modifies a`started, a.mem
    ensures a.Valid() && |answers| == |requests|
    ensures var c := After(requests, answers);
            && c.Keys == PointersOf(a.Live()) && 0 !in c
            && (forall p, k :: p in c && k in c[p].bytes ==>
                  (p + k) / 4 < a.mem.Length && HeapByte(a.mem[..], p + k) == c[p].bytes[k])
            && (c == map[] ==> a.All() == [Block(0, HEAP_WORDS - 2, true)])
  {
    hide Effect, Good, After, PointersOf, HeapByte, UsedIn, Blocks, Tiles, NoAdjacentFree;
    var c: Contents := map[];
    answers := [];
    NothingHeld(a);
    AfterNone();
    assert requests[..0] == [];
    for i := 0 to |requests|
      invariant |answers| == i && a.mem == old(a.mem) && c == After(requests[..i], answers) && Good(a, c)
    {
      var q := Serve(a, requests[i], c);
      c := Effect(requests[i], q, c);
      AfterNext(requests[..i], answers, requests[i], q);
      assert requests[..i + 1] == requests[..i] + [requests[i]];
      answers := answers + [q];
    }
    assert requests[..|requests|] == requests;
    InTheEnd(a, c);
  }

  lemma AfterNone()
    ensures After([], []) == map[]
  {
  }

  lemma AfterNext(requests: seq<Request>, answers: seq<nat>, r: Request, q: nat)
    requires |answers| == |requests|
    ensures After(requests + [r], answers + [q]) == Effect(r, q, After(requests, answers))
  {
    hide Effect;
    assert (requests + [r])[..|requests|] == requests && (answers + [q])[..|answers|] == answers;
  }

  lemma NothingHeld(a: Allocator)
    requires a.Valid() && a.Live() == {}
    ensures Good(a, map[])
  {
  }

  lemma InTheEnd(a: Allocator, c: Contents)
    requires Good(a, c)
    ensures a.Valid() && c.Keys == PointersOf(a.Live()) && 0 !in c
    ensures forall p, k :: p in c && k in c[p].bytes ==>
              (p + k) / 4 < a.mem.Length && HeapByte(a.mem[..], p + k) == c[p].bytes[k]
    ensures c == map[] ==> a.All() == [Block(0, HEAP_WORDS - 2, true)]
  {
    hide Tiles, Blocks, NoAdjacentFree, UsedIn, HeapByte;
    if c == map[] {
      NoPointers(a.Live());
      a.Restored();
    }
  }
}
