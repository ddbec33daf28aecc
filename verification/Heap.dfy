/** malloc, free, calloc and realloc of libc/stdlib.c on the heap's own words. A pointer is a
    byte offset into heap_storage; no payload starts at offset 0, so 0 is the null pointer. */
module Heap {
  import opened Words
  import opened Memory
  import opened HeapBlocks
  import opened HeapPayload

  const HEAP_WORDS := 4096

  /** (n + 3u) & ~3u, in 32 bits */
  function RoundUp(n: word): word { ((n as int) + 3) % 0x1_0000_0000 / 4 * 4 }

  /** The pointers to the payloads of these blocks. */
  ghost function PointersOf(live: set<Block>): set<nat> { set x | x in live :: Payload(x) }

  /** The byte offset of a block's payload. */
  function Payload(x: Block): nat { 4 * (x.at + 2) }

  lemma NoPointers(live: set<Block>)
    ensures live != {} ==> PointersOf(live) != {}
  {
    if x :| x in live {
      assert Payload(x) in PointersOf(live);
    }
  }

  lemma PointerAdded(live: set<Block>, now: set<Block>, x: Block, need: nat)
    requires NewBlock(live, now, x, need)
    ensures PointersOf(now) == PointersOf(live) + {Payload(x)}
  {
  }

  /** nmemb * size, in 32 bits */
  function Product(nmemb: word, size: word): word { (nmemb as int) * (size as int) % 0x1_0000_0000 }

  // What the operations do to the list of blocks.

  /** The blocks that replace a free block x when `need` words are taken from it. */
  function Taken(x: Block, need: nat): seq<Block>
    requires need <= x.size
  {
    if x.size - need >= 3 then
      [Block(x.at, need, false), Block(x.at + 2 + need, x.size - need - 2, true)]
    else
      [Block(x.at, x.size, false)]
  }

  /** Index of the first free block of at least `need` words. */
  function FirstFit(s: seq<Block>, need: nat): (i: Option<nat>)
    ensures i.None? ==> forall x :: x in s && x.free ==> x.size < need
    ensures i.Some? ==> i.value < |s| && s[i.value].free && s[i.value].size >= need
    ensures i.Some? ==> forall j :: 0 <= j < i.value && s[j].free ==> s[j].size < need
  {
    if s == [] then None
    else if s[0].free && s[0].size >= need then Some(0)
    else
      var i :- FirstFit(s[1..], need);
      Some(i + 1)
  }

  function Allocated(s: seq<Block>, i: nat, need: nat): seq<Block>
    requires i < |s| && need <= s[i].size
  {
    s[..i] + Taken(s[i], need) + s[i + 1..]
  }

  /** Taking from a free block keeps free blocks apart, adds exactly one used block, and
      leaves every other used block as it was. */
  lemma AllocationKeeps(s: seq<Block>, i: nat, need: nat)
    requires NoAdjacentFree(s) && i < |s| && s[i].free && need <= s[i].size
    ensures NoAdjacentFree(Allocated(s, i, need))
    ensures UsedIn(Allocated(s, i, need)) == UsedIn(s) + {Taken(s[i], need)[0]}
  {
    var x, t := s[i], Taken(s[i], need);
    assert s == s[..i] + [x] + s[i + 1..];
    UsedConcat(s[..i] + [x], s[i + 1..]);
    UsedConcat(s[..i], [x]);
    UsedConcat(s[..i] + t, s[i + 1..]);
    UsedConcat(s[..i], t);
    var r := Allocated(s, i, need);
    forall j | 0 <= j < |r| - 1
      ensures !(r[j].free && r[j + 1].free)
    {
      if j + 1 < i {
        assert r[j] == s[j] && r[j + 1] == s[j + 1];
      } else if j + 1 == i {
        assert r[i] == t[0];
      } else if j == i {
        assert r[i] == t[0];
      } else if j - i == |t| - 1 {
        assert r[j + 1] == s[i + 1];
        assert !(s[i].free && s[i + 1].free);
      } else {
        var k := j - |t| + 1;
        assert r[j] == s[k] && r[j + 1] == s[k + 1];
      }
    }
  }

  function Released(s: seq<Block>, i: nat): seq<Block>
    requires i < |s|
  {
    Coalesced(s[..i] + [s[i].(free := true)] + s[i + 1..])
  }

  /** Releasing a used block removes exactly it and keeps free blocks apart. */
  lemma ReleaseKeeps(s: seq<Block>, i: nat)
    requires i < |s| && !s[i].free && forall j :: 0 <= j < |s| && j != i ==> s[j] != s[i]
    ensures NoAdjacentFree(Released(s, i)) && UsedIn(Released(s, i)) == UsedIn(s) - {s[i]}
  {
    hide Coalesced, NoAdjacentFree;
    var x := s[i];
    var t := s[..i] + [x.(free := true)] + s[i + 1..];
    CoalescedIsMerged(t);
    assert s == s[..i] + [x] + s[i + 1..];
    UsedConcat(s[..i] + [x], s[i + 1..]);
    UsedConcat(s[..i], [x]);
    UsedConcat(s[..i] + [x.(free := true)], s[i + 1..]);
    UsedConcat(s[..i], [x.(free := true)]);
    assert x !in s[..i] && x !in s[i + 1..];
  }

  // Memory: what header writes do to a tiling.

  lemma TwoBlocks(n: seq<word>, b: nat, mid: nat, c: nat)
    requires HeaderAt(n, b, mid) && BlockAt(n, b).Next() == mid
    requires HeaderAt(n, mid, c) && BlockAt(n, mid).Next() == c
    ensures Tiles(n, b, c) && Blocks(n, b, c) == [BlockAt(n, b), BlockAt(n, mid)]
  {
    OneBlock(n, b, mid);
    OneBlock(n, mid, c);
    TilesJoin(n, b, mid, c);
  }

  class Allocator {
    var mem: array<word>
    var started: bool

    ghost predicate Valid()
      reads this, mem
    {
      && mem.Length == HEAP_WORDS
      && (started ==> Tiles(mem[..], 0, HEAP_WORDS) && NoAdjacentFree(Blocks(mem[..], 0, HEAP_WORDS)))
    }

    /** Before the first malloc the heap counts as one free block. */
    ghost function All(): seq<Block>
      requires Valid()
      reads this, mem
    {
      if started then Blocks(mem[..], 0, HEAP_WORDS) else [Block(0, HEAP_WORDS - 2, true)]
    }

    ghost function Live(): set<Block>
      requires Valid()
      reads this, mem
    {
      UsedIn(All())
    }

    constructor (storage: array<word>)
      requires storage.Length == HEAP_WORDS
      ensures Valid() && !started && mem == storage && Live() == {}
    {
      mem, started := storage, false;
    }

    /** heap_init */
    method Init()
      requires Valid() && !started
      modifies this`started, mem
      ensures Valid() && started && All() == old(All())
    {
      mem[0] := (HEAP_WORDS - 2) * 4;
      mem[1] := 1;
      started := true;
      OneBlock(mem[..], 0, HEAP_WORDS);
    }

    /** The block whose payload starts at byte p. */
    ghost function BlockOf(p: nat): Block
      requires 8 <= p && p / 4 <= mem.Length
      reads this, mem
    {
      BlockAt(mem[..], p / 4 - 2)
    }

    /** Pointers the caller may pass back: the payload offsets of used blocks. */
    ghost predicate IsLive(p: nat)
      requires Valid()
      reads this, mem
    {
      started && p % 4 == 0 && 8 <= p && p / 4 <= mem.Length && BlockOf(p) in Live()
    }

    /** Payloads of different live pointers never share a word. */
    lemma LiveDisjoint(p: nat, q: nat)
      requires Valid() && IsLive(p) && IsLive(q) && p != q
      ensures p + 4 * BlockOf(p).size <= q || q + 4 * BlockOf(q).size <= p
      ensures p + 4 * BlockOf(p).size <= 4 * HEAP_WORDS
    {
      hide Blocks, Tiles, NoAdjacentFree;
      UsedApart(mem[..], BlockOf(p), BlockOf(q));
    }

    /** When nothing is in use the heap is one full-size free block again. */
    lemma Restored()
      requires Valid() && Live() == {}
      ensures All() == [Block(0, 4094, true)]
    {
      if started {
        AllFreeIsOne(mem[..], 0, HEAP_WORDS);
      }
    }

    /** Every block that stays in use keeps its place, header and payload. */
    twostate predicate Keeps(live: set<Block>)
      requires old(Valid()) && Valid()
      reads this, mem
    {
      live <= old(Live()) && live <= Live() && mem == old(mem)
      && Untouched(old(mem[..]), mem[..], live)
    }

    /** Take `need` words from the free block at b. */
    method Take(b: nat, need: nat)
      requires mem.Length == HEAP_WORDS && HeaderAt(mem[..], b, HEAP_WORDS) && need <= BlockAt(mem[..], b).size
      modifies mem
      ensures mem[..] == TakenWords(old(mem[..]), b, need)
    {
      var remaining := mem[b] / 4 - need;
      if remaining >= 3 {
        mem[b + 2 + need] := (remaining - 2) * 4;
        mem[b + 3 + need] := 1;
        mem[b] := need * 4;
      }
      mem[b + 1] := 0;
    }

    /** The search loop: first fit over the headers. */
    method Search(need: nat) returns (p: nat)
      requires Valid() && started
      modifies mem
      ensures Valid() && mem == old(mem) && started
      ensures var i := FirstFit(old(All()), need);
              if i.None? then p == 0 && mem[..] == old(mem[..])
              else p == 4 * (old(All())[i.value].at + 2) && All() == Allocated(old(All()), i.value, need)
      ensures Keeps(old(Live()))
    {
      hide Blocks, Tiles, FirstFit, NoAdjacentFree, Allocated, TakenWords;
      var b := 0;
      ghost var m := mem[..];
      ghost var s := Blocks(m, 0, HEAP_WORDS);
      TilesStart(m, HEAP_WORDS);
      while b < HEAP_WORDS
        invariant b <= HEAP_WORDS && mem[..] == m && Tiles(m, 0, b) && Tiles(m, b, HEAP_WORDS)
        invariant s == Blocks(m, 0, b) + Blocks(m, b, HEAP_WORDS)
        invariant forall x :: x in Blocks(m, 0, b) && x.free ==> x.size < need
        decreases HEAP_WORDS - b
      {
        WalkOn(m, b, HEAP_WORDS);
        if mem[b + 1] != 0 && mem[b] / 4 >= need {
          TakeCorrect(m, b, need);
          FirstFitIs(Blocks(m, 0, b), BlockAt(m, b), Blocks(m, BlockAt(m, b).Next(), HEAP_WORDS), need);
          assert s == Blocks(m, 0, b) + [BlockAt(m, b)] + Blocks(m, BlockAt(m, b).Next(), HEAP_WORDS);
          AllocationKeeps(s, |Blocks(m, 0, b)|, need);
          Take(b, need);
          return 4 * (b + 2);
        }
        b := b + 2 + mem[b] / 4;
      }
      TilesEnd(m, HEAP_WORDS);
      NoneFits(s, need);
      p := 0;
    }

    /** malloc hands out the first free block that is large enough, split when the rest can
        hold a header and a word; it fails only when every free block is too small. */
    method Malloc(n: word) returns (p: nat)
      requires Valid()
      modifies this`started, mem
      ensures Valid() && mem == old(mem) && Keeps(old(Live()))
      ensures HandsOut(old(All()), All(), n, p) && (p == 0 ==> All() == old(All()))
      ensures Serves(old(All()), All(), n, p)
      ensures p != 0 ==> IsLive(p) && NewBlock(old(Live()), Live(), BlockOf(p), RoundUp(n) / 4)
    {
      hide FirstFit, Allocated, NoAdjacentFree, Blocks, Tiles, NewBlock, RoundUp, Serves;
      ghost var s := All();
      if !started {
        Init();
        assert Live() == {};
      }
      if n == 0 {
        HandsOutServes(s, All(), n, 0);
        return 0;
      }
      ghost var m := mem[..];
      p := Search(RoundUp(n) / 4);
      HandsOutServes(s, All(), n, p);
      if p != 0 {
        Handed(m, mem[..], FirstFit(Blocks(m, 0, HEAP_WORDS), RoundUp(n) / 4).value, RoundUp(n) / 4);
      }
    }

    /** heap_coalesce: each free block swallows the free blocks that follow it. */
    method Coalesce()
      requires mem.Length == HEAP_WORDS && Tiles(mem[..], 0, HEAP_WORDS)
      modifies mem
      ensures Tiles(mem[..], 0, HEAP_WORDS)
      ensures Blocks(mem[..], 0, HEAP_WORDS) == Coalesced(old(Blocks(mem[..], 0, HEAP_WORDS)))
      ensures forall x :: x in old(UsedIn(Blocks(mem[..], 0, HEAP_WORDS))) ==> SameBlock(old(mem[..]), mem[..], x)
    {
      hide Blocks, Tiles, Coalesced, SameBlock;
      var b: nat := 0;
      ghost var m := mem[..];
      ghost var s := Blocks(m, 0, HEAP_WORDS);
      TilesStart(m, HEAP_WORDS);
      SameRefl(m);
      while b < HEAP_WORDS
        invariant b <= HEAP_WORDS && Tiles(mem[..], 0, b) && Tiles(mem[..], b, HEAP_WORDS)
        invariant Coalesced(s) == Blocks(mem[..], 0, b) + Coalesced(Blocks(mem[..], b, HEAP_WORDS))
        invariant UsedIn(Blocks(mem[..], 0, b)) + UsedIn(Blocks(mem[..], b, HEAP_WORDS)) == UsedIn(s)
        invariant forall x :: x in UsedIn(s) ==> SameBlock(m, mem[..], x)
        decreases |Blocks(mem[..], b, HEAP_WORDS)|
      {
        WalkOn(mem[..], b, HEAP_WORDS);
        var next := b + 2 + mem[b] / 4;
        ghost var c := mem[..];
        if mem[b + 1] != 0 && next < HEAP_WORDS {
          WalkOn(c, next, HEAP_WORDS);
          if mem[next + 1] != 0 {
            mem[b] := (mem[b] as int) + 8 + mem[next];
            MergeCorrect(m, c, mem[..], s, b, next);
            continue;
          }
        }
        SkipCorrect(c, b, next);
        b := next;
      }
      TilesEnd(mem[..], HEAP_WORDS);
      CoalescedNone();
    }

    /** free of a pointer that malloc returned and that is still in use, or of null. */
    method Free(p: nat)
      requires Valid() && (p == 0 || IsLive(p))
      modifies mem
      ensures Valid() && mem == old(mem)
      ensures p == 0 ==> mem[..] == old(mem[..])
      ensures p != 0 ==> Live() == old(Live()) - {old(BlockOf(p))} && Keeps(Live())
      ensures p != 0 ==> exists i: nat :: Releases(old(All()), All(), old(BlockOf(p)), i)
    {
      hide Blocks, Tiles, NoAdjacentFree, SameBlock, Released;
      if p == 0 {
        return;
      }
      ghost var i := Release(p / 4 - 2, BlockOf(p));
    }

    /** calloc: the product is taken in 32 bits; every requested byte comes back zero. */
    method Calloc(nmemb: word, size: word) returns (p: nat)
      requires Valid() && Product(nmemb, size) <= 0xFFFF_FFFC
      modifies this`started, mem
      ensures Valid() && mem == old(mem) && Keeps(old(Live()))
      ensures HandsOut(old(All()), All(), Product(nmemb, size), p) && (p == 0 ==> All() == old(All()))
      ensures Serves(old(All()), All(), Product(nmemb, size), p)
      ensures p != 0 ==> IsLive(p) && NewBlock(old(Live()), Live(), BlockOf(p), RoundUp(Product(nmemb, size)) / 4)
      ensures p != 0 ==> Zeroed(mem[..], p, Product(nmemb, size))
    {
      hide HandsOut, Serves, NoAdjacentFree, Blocks, Tiles, SameBlock, NewBlock, RoundUp, Product, Filled, Zeroed;
      var total := Product(nmemb, size);
      ghost var m, live := mem[..], Live();
      p := Malloc(total);
      if p != 0 {
        ghost var c, x := mem[..], BlockOf(p);
        NewBlockFits(live, Live(), x, total);
        BlockInside(c, 0, HEAP_WORDS, x);
        Memset(mem, p, 0, total);
        PayloadStores(c, mem[..], x);
        FilledThrough(m, c, mem[..], live, x, p, total);
      }
    }

    /** realloc: in place when the block is large enough; otherwise a new block receives the
        old payload and the old block is freed, or, when none fits, nothing changes. */
    method Realloc(p: nat, n: word) returns (q: nat)
      requires Valid() && (p == 0 || (IsLive(p) && n <= 0xFFFF_FFFC))
      modifies this`started, mem
      ensures Valid() && mem == old(mem)
      ensures p == 0 ==> HandsOut(old(All()), All(), n, q) && Serves(old(All()), All(), n, q) && Keeps(old(Live()))
      ensures p != 0 && n == 0 ==> q == 0 && Live() == old(Live()) - {old(BlockOf(p))} && Keeps(Live())
      ensures p != 0 && 0 < n <= 4 * old(BlockOf(p)).size ==> q == p && mem[..] == old(mem[..])
      ensures p != 0 && 4 * old(BlockOf(p)).size < n ==> (q == 0 <==> FirstFit(old(All()), RoundUp(n) / 4).None?)
      ensures n != 0 && q == 0 ==> All() == old(All()) && Keeps(old(Live()))
      ensures q != 0 ==> IsLive(q)
      ensures p != 0 && 4 * old(BlockOf(p)).size < n && q != 0 ==>
                && Moves(old(Live()), Live(), old(BlockOf(p)), BlockOf(q), RoundUp(n) / 4)
                && Keeps(old(Live()) - {old(BlockOf(p))})
                && SamePayload(old(mem[..]), mem[..], old(BlockOf(p)), BlockOf(q))
    {
      hide FirstFit, Allocated, NoAdjacentFree, Blocks, Tiles, SameBlock, Untouched, SamePayload, Serves;
      if p == 0 {
        q := Malloc(n);
        return;
      }
      if n == 0 {
        Free(p);
        return 0;
      }
      ghost var m, x, live := mem[..], BlockOf(p), Live();
      var size := mem[p / 4 - 2] / 4;
      if 4 * size >= n {
        return p;
      }
      q := Malloc(n);
      if q != 0 {
        ghost var c, y := mem[..], BlockOf(q);
        UsedInside(m, x);
        UsedInside(c, y);
        UntouchedHere(m, c, live, x);
        Move(p, q);
        assert live - {x} == live + {y} - {x, y};
        MovedThrough(m, c, mem[..], live, x, y);
      }
    }

    /** The second half of realloc: copy the payload of p to q, free p. */
    method Move(p: nat, q: nat)
      requires Valid() && IsLive(p) && IsLive(q) && p != q && BlockOf(p).size <= BlockOf(q).size
      modifies mem
      ensures Valid() && mem == old(mem) && IsLive(q) && BlockOf(q) == old(BlockOf(q))
      ensures Live() == old(Live()) - {old(BlockOf(p))}
      ensures Keeps(old(Live()) - {old(BlockOf(p)), old(BlockOf(q))})
      ensures SamePayload(old(mem[..]), mem[..], old(BlockOf(p)), BlockOf(q))
    {
      hide Blocks, Tiles, NoAdjacentFree, SameBlock, Releases, Untouched, SamePayload, UsedIn;
      ghost var m, x, y, live := mem[..], BlockOf(p), BlockOf(q), Live();
      Copy(p, q);
      ghost var c := mem[..];
      Free(p);
      assert live - {x, y} + {y} == Live();
      UntouchedHere(c, mem[..], Live(), y);
      CopiedThrough(m, c, mem[..], live - {x, y}, x, y);
    }

    method Copy(p: nat, q: nat)
      requires Valid() && IsLive(p) && IsLive(q) && p != q && BlockOf(p).size <= BlockOf(q).size
      modifies mem
      ensures Valid() && mem == old(mem) && All() == old(All()) && IsLive(p) && IsLive(q)
      ensures BlockOf(p) == old(BlockOf(p)) && BlockOf(q) == old(BlockOf(q))
      ensures BlockOf(p).Next() <= HEAP_WORDS && BlockOf(q).Next() <= HEAP_WORDS
      ensures Untouched(old(mem[..]), mem[..], old(Live()) - {BlockOf(p), BlockOf(q)})
      ensures SamePayload(old(mem[..]), mem[..], BlockOf(p), BlockOf(q))
    {
      hide Blocks, Tiles, NoAdjacentFree, SameBlock, UsedIn, Untouched, SamePayload, OnlyPayload;
      ghost var m, x, y := mem[..], BlockOf(p), BlockOf(q);
      UsedApart(m, x, y);
      Memcpy(mem, q / 4, p / 4, mem[p / 4 - 2] / 4);
      CopyCorrect(m, mem[..], x, y);
    }

    lemma IsHeld(p: nat)
      requires Valid() && p in PointersOf(Live())
      ensures IsLive(p)
      ensures PointersOf(Live() - {BlockOf(p)}) == PointersOf(Live()) - {p}
    {
      hide Blocks, Tiles, NoAdjacentFree;
      var x :| x in Live() && p == Payload(x);
      UsedInside(mem[..], x);
      forall y | y in Live() && y.at == x.at
        ensures y == x
      {
        UsedInside(mem[..], y);
      }
    }

    /** Setting the flag of the used block x and coalescing. */
    method Release(b: nat, ghost x: Block) returns (ghost i: nat)
      requires mem.Length == HEAP_WORDS && Tiles(mem[..], 0, HEAP_WORDS)
      requires x in Blocks(mem[..], 0, HEAP_WORDS) && !x.free && x.at == b
      modifies mem
      ensures Tiles(mem[..], 0, HEAP_WORDS)
      ensures Releases(old(Blocks(mem[..], 0, HEAP_WORDS)), Blocks(mem[..], 0, HEAP_WORDS), x, i)
      ensures forall y :: y in old(UsedIn(Blocks(mem[..], 0, HEAP_WORDS))) && y != x ==> SameBlock(old(mem[..]), mem[..], y)
    {
      ghost var m := mem[..];
      BlockInside(m, 0, HEAP_WORDS, x);
      hide Blocks, Tiles, Coalesced, SameBlock, UsedIn, Releases;
      mem[b + 1] := 1;
      ghost var n := mem[..];
      i := ReleaseHeader(m, n, x);
      Coalesce();
      ReleaseCorrect(m, n, mem[..], x, i);
    }
  }

  /** t is s after its i-th block, the used block x, was released. */
  ghost predicate Releases(s: seq<Block>, t: seq<Block>, x: Block, i: nat) {
    i < |s| && s[i] == x && t == Released(s, i) && NoAdjacentFree(t) && UsedIn(t) == UsedIn(s) - {x}
  }

  lemma ReleaseCorrect(m: seq<word>, n: seq<word>, r: seq<word>, x: Block, i: nat)
    requires |m| == |n| == |r| == HEAP_WORDS && !x.free
    requires Tiles(m, 0, HEAP_WORDS) && Tiles(n, 0, HEAP_WORDS) && Tiles(r, 0, HEAP_WORDS)
    requires var s := Blocks(m, 0, HEAP_WORDS);
             && i < |s| && s[i] == x && Blocks(n, 0, HEAP_WORDS) == s[..i] + [x.(free := true)] + s[i + 1..]
             && (forall j :: 0 <= j < |s| && j != i ==> s[j] != x)
             && forall y :: y in UsedIn(s) && y != x ==> SameBlock(m, n, y)
    requires Blocks(r, 0, HEAP_WORDS) == Coalesced(Blocks(n, 0, HEAP_WORDS))
    requires forall y :: y in UsedIn(Blocks(n, 0, HEAP_WORDS)) ==> SameBlock(n, r, y)
    ensures Releases(Blocks(m, 0, HEAP_WORDS), Blocks(r, 0, HEAP_WORDS), x, i)
    ensures forall y :: y in UsedIn(Blocks(m, 0, HEAP_WORDS)) && y != x ==> SameBlock(m, r, y)
  {
    hide Blocks, Tiles, Coalesced, NoAdjacentFree, UsedIn;
    var s, t := Blocks(m, 0, HEAP_WORDS), Blocks(n, 0, HEAP_WORDS);
    ReleaseKeeps(s, i);
    ReleasedUsed(s, i);
    forall y | y in UsedIn(s) && y != x
      ensures SameBlock(m, r, y)
    {
      assert y in UsedIn(t) && SameBlock(m, n, y) && SameBlock(n, r, y);
    }
  }

  lemma ReleasedUsed(s: seq<Block>, i: nat)
    requires i < |s| && !s[i].free && forall j :: 0 <= j < |s| && j != i ==> s[j] != s[i]
    ensures UsedIn(s) - {s[i]} <= UsedIn(s[..i] + [s[i].(free := true)] + s[i + 1..])
  {
    var t := s[..i] + [s[i].(free := true)] + s[i + 1..];
    forall y | y in UsedIn(s) - {s[i]}
      ensures y in t
    {
      var j :| 0 <= j < |s| && s[j] == y;
      assert t[j] == y;
    }
  }

  /** The used blocks are as before, except that y of `need` words and at most two over replaces x. */
  ghost predicate Moves(before: set<Block>, after: set<Block>, x: Block, y: Block, need: nat) {
    x in before && y !in before && after == before - {x} + {y} && need <= y.size < need + 3
  }

  /** What malloc(n) returns, and the block list s it leaves as t. */
  ghost predicate HandsOut(s: seq<Block>, t: seq<Block>, n: word, p: nat) {
    var need := RoundUp(n) / 4;
    var i := FirstFit(s, need);
    if n == 0 || i.None? then p == 0 && t == s
    else p == 4 * (s[i.value].at + 2) && t == Allocated(s, i.value, need)
  }

  /** The words a request is rounded up to; the last three requests wrap around to none. */
  ghost function Needed(n: word): nat { if n <= 0xFFFF_FFFC then (n + 3) / 4 else 0 }

  /** The i-th block of s was given to a request of `need` words: cut to exactly that many when
      at least three words are over, which then make a free block of their own behind a header,
      and whole otherwise. Every other block stays. */
  ghost predicate Gives(s: seq<Block>, t: seq<Block>, need: nat, i: nat) {
    && i < |s| && i < |t| && s[i].free && s[i].size >= need && !t[i].free && t[i].at == s[i].at
    && (forall j :: 0 <= j < i ==> !(s[j].free && s[j].size >= need))
    && t[..i] == s[..i]
    && if s[i].size >= need + 3 then
         && |t| == |s| + 1 && t[i].size == need && t[i + 2..] == s[i + 1..]
         && t[i + 1].free && t[i + 1].at == t[i].Next() && t[i + 1].Next() == s[i].Next()
       else t[i].size == s[i].size && t[i + 1..] == s[i + 1..]
  }

  /** What a request of n bytes gets from the block list s, which it leaves as t: the first
      free block that is large enough, or null and an unchanged list. */
  ghost predicate Serves(s: seq<Block>, t: seq<Block>, n: word, p: nat) {
    if n == 0 || forall x :: x in s && x.free ==> x.size < Needed(n) then p == 0 && t == s
    else exists i: nat :: Gives(s, t, Needed(n), i) && p == 4 * (s[i].at + 2)
  }

  lemma HandsOutServes(s: seq<Block>, t: seq<Block>, n: word, p: nat)
    requires HandsOut(s, t, n, p)
    ensures Serves(s, t, n, p)
  {
    hide FirstFit, Gives;
    RoundUpCovers(n);
    var i := FirstFit(s, Needed(n));
    if n != 0 && i.Some? {
      AllocatedGives(s, i.value, Needed(n));
      assert s[i.value] in s;
    }
  }

  lemma AllocatedGives(s: seq<Block>, i: nat, need: nat)
    requires i < |s| && s[i].free && s[i].size >= need
    requires forall j :: 0 <= j < i && s[j].free ==> s[j].size < need
    ensures Gives(s, Allocated(s, i, need), need, i)
  {
  }

  /** On the empty heap malloc(400) takes one hundred words and leaves the rest to malloc(4). */
  lemma TwoRequests()
    ensures var s := [Block(0, 100, false), Block(102, 3992, true)];
            && HandsOut([Block(0, 4094, true)], s, 400, 8)
            && HandsOut(s, [Block(0, 100, false), Block(102, 1, false), Block(105, 3989, true)], 4, 416)
  {
    hide FirstFit;
    var used, rest := Block(0, 100, false), Block(102, 3992, true);
    CutFree([], Block(0, 4094, true), 100);
    CutFree([used], rest, 1);
    assert [] + [used, rest] == [used, rest];
    var second, third := Block(102, 1, false), Block(105, 3989, true);
    assert [used] + [second, third] == [used, second, third];
    assert RoundUp(400) == 400 && RoundUp(4) == 4;
  }

  /** A free block behind used ones serves a request that leaves at least three words. */
  lemma CutFree(before: seq<Block>, x: Block, need: nat)
    requires x.free && x.size >= need + 3 && forall y :: y in before ==> !y.free
    ensures FirstFit(before + [x], need) == Some(|before|)
    ensures Allocated(before + [x], |before|, need)
         == before + [Block(x.at, need, false), Block(x.at + 2 + need, x.size - need - 2, true)]
  {
    hide FirstFit, Taken;
    assert before + [x] + [] == before + [x];
    FirstFitIs(before, x, [], need);
    AllocatedLast(before, x, need);
    CutInTwo(x, need);
  }

  lemma CutInTwo(x: Block, need: nat)
    requires x.size >= need + 3
    ensures Taken(x, need) == [Block(x.at, need, false), Block(x.at + 2 + need, x.size - need - 2, true)]
  {
  }

  lemma AllocatedLast(before: seq<Block>, x: Block, need: nat)
    requires need <= x.size
    ensures Allocated(before + [x], |before|, need) == before + Taken(x, need)
  {
    hide Taken;
    assert (before + [x])[..|before|] == before && (before + [x])[|before| + 1..] == [];
  }

  ghost predicate Zeroed(m: seq<word>, p: nat, len: nat) {
    p + len <= 4 * |m| && forall a: nat :: p <= a < p + len ==> HeapByte(m, a) == 0
  }

  /** Rounding goes to the next multiple of four, and covers the request exactly when it does
      not wrap. */
  lemma RoundUpCovers(n: word)
    ensures RoundUp(n) >= n <==> n <= 0xFFFF_FFFC
    ensures RoundUp(n) % 4 == 0 && (n <= 0xFFFF_FFFC ==> n <= RoundUp(n) < n + 4)
    ensures RoundUp(n) / 4 == Needed(n)
  {
  }

  /** A block that is large enough for the rounded request holds the request if and only if
      rounding does not wrap: otherwise a memset or memcpy of the request leaves the heap. */
  lemma HandedOutHolds(m: seq<word>, x: Block, n: word)
    requires |m| == HEAP_WORDS && Tiles(m, 0, HEAP_WORDS) && x in Blocks(m, 0, HEAP_WORDS) && x.size >= RoundUp(n) / 4
    ensures n <= 4 * x.size <==> n <= 0xFFFF_FFFC
  {
    BlockInside(m, 0, HEAP_WORDS, x);
    RoundUpCovers(n);
  }

  /** A block handed out for the 32-bit product holds nmemb objects of the size if and only if
      the true product is at most 2^32 - 4. */
  lemma ProductHolds(m: seq<word>, x: Block, nmemb: word, size: word)
    requires |m| == HEAP_WORDS && Tiles(m, 0, HEAP_WORDS) && x in Blocks(m, 0, HEAP_WORDS)
    requires x.size >= RoundUp(Product(nmemb, size)) / 4
    ensures nmemb * size <= 4 * x.size <==> nmemb * size <= 0xFFFF_FFFC
  {
    BlockInside(m, 0, HEAP_WORDS, x);
    HandedOutHolds(m, x, Product(nmemb, size));
    hide Tiles, Blocks, RoundUp;
    Unwrapped((nmemb as int) * (size as int), Product(nmemb, size), 4 * x.size);
  }

  lemma Unwrapped(product: nat, n: word, held: nat)
    requires n == product % 0x1_0000_0000 && held <= 4 * HEAP_WORDS && (n <= held <==> n <= 0xFFFF_FFFC)
    ensures product <= held <==> product <= 0xFFFF_FFFC
  {
  }

  /** 2^30 + 1 objects of four bytes ask for the product 4, and on the empty heap are given a
      block of one word. */
  lemma ProductWraps()
    ensures var s := [Block(0, HEAP_WORDS - 2, true)];
            && Product(0x4000_0001, 4) == 4 && HandsOut(s, Allocated(s, 0, 1), 4, 8)
            && Allocated(s, 0, 1)[0] == Block(0, 1, false)
  {
    assert RoundUp(4) == 4;
  }

  /** On the empty heap a request of 2^32 - 3 bytes is answered with a block of no bytes. */
  lemma WrapsToNothing()
    ensures var s := [Block(0, HEAP_WORDS - 2, true)];
            && HandsOut(s, Allocated(s, 0, 0), 0xFFFF_FFFD, 8)
            && Allocated(s, 0, 0)[0] == Block(0, 0, false)
  {
    assert RoundUp(0xFFFF_FFFD) == 0;
  }

  /** y is one more used block than before, of `need` words and at most two over. */
  ghost predicate NewBlock(before: set<Block>, after: set<Block>, y: Block, need: nat) {
    after == before + {y} && y !in before && need <= y.size < need + 3
  }

  /** The payload of x, as it was in m, opens the payload of y in n. */
  ghost predicate SamePayload(m: seq<word>, n: seq<word>, x: Block, y: Block)
  {
    x.size <= y.size && x.Next() <= |m| && y.Next() <= |n| && n[y.at + 2..y.at + 2 + x.size] == m[x.at + 2..x.Next()]
  }

  /** Every one of these blocks keeps its words. */
  ghost predicate Untouched(m: seq<word>, n: seq<word>, live: set<Block>) {
    forall x :: x in live ==> SameBlock(m, n, x)
  }

  /** The header of a block that kept its words says the same, and its payload moves the same. */
  lemma SameHere(m: seq<word>, n: seq<word>, x: Block)
    requires x.Next() <= |m| && SameBlock(m, n, x)
    ensures BlockAt(n, x.at) == BlockAt(m, x.at) && n[x.at + 2..x.Next()] == m[x.at + 2..x.Next()]
  {
  }

  lemma UntouchedHere(m: seq<word>, n: seq<word>, live: set<Block>, x: Block)
    requires x in live && x.Next() <= |m| && Untouched(m, n, live)
    ensures BlockAt(n, x.at) == BlockAt(m, x.at)
  {
    SameHere(m, n, x);
  }

  lemma UsedInside(m: seq<word>, x: Block)
    requires Tiles(m, 0, HEAP_WORDS) && x in UsedIn(Blocks(m, 0, HEAP_WORDS))
    ensures x.Next() <= HEAP_WORDS <= |m| && x == BlockAt(m, x.at) && x in Blocks(m, 0, HEAP_WORDS)
  {
    BlockInside(m, 0, HEAP_WORDS, x);
  }

  lemma UsedApart(m: seq<word>, x: Block, y: Block)
    requires Tiles(m, 0, HEAP_WORDS) && {x, y} <= UsedIn(Blocks(m, 0, HEAP_WORDS)) && x.at != y.at
    ensures x.Next() <= HEAP_WORDS <= |m| && x == BlockAt(m, x.at) && x in Blocks(m, 0, HEAP_WORDS)
    ensures y.Next() <= HEAP_WORDS <= |m| && y == BlockAt(m, y.at) && y in Blocks(m, 0, HEAP_WORDS)
    ensures x.Next() <= y.at || y.Next() <= x.at
  {
    UsedInside(m, x);
    UsedInside(m, y);
    BlocksDisjoint(m, 0, HEAP_WORDS, x, y);
  }

  /** Copying the payload of x over the start of y's. */
  lemma CopyCorrect(m: seq<word>, n: seq<word>, x: Block, y: Block)
    requires |m| == |n| == HEAP_WORDS && Tiles(m, 0, HEAP_WORDS)
    requires {x, y} <= UsedIn(Blocks(m, 0, HEAP_WORDS)) && x.at != y.at && x.size <= y.size
    requires x.Next() <= HEAP_WORDS && y.Next() <= HEAP_WORDS && n[y.at + 2..y.at + 2 + x.size] == m[x.at + 2..x.Next()]
    requires forall i :: 0 <= i < |m| && !(y.at + 2 <= i < y.at + 2 + x.size) ==> n[i] == m[i]
    ensures Tiles(n, 0, HEAP_WORDS) && Blocks(n, 0, HEAP_WORDS) == Blocks(m, 0, HEAP_WORDS)
    ensures BlockAt(n, x.at) == x && BlockAt(n, y.at) == y && SamePayload(m, n, x, y)
    ensures Untouched(m, n, UsedIn(Blocks(m, 0, HEAP_WORDS)) - {x, y})
  {
    hide Blocks, Tiles, SameBlock;
    UsedApart(m, x, y);
    PayloadStores(m, n, y);
    SameHere(m, n, x);
  }

  lemma NewBlockFits(before: set<Block>, after: set<Block>, x: Block, n: word)
    requires NewBlock(before, after, x, RoundUp(n) / 4) && n <= 0xFFFF_FFFC
    ensures n <= 4 * x.size && (n + 3) / 4 <= x.size && x !in before
  {
  }

  lemma FilledThrough(m: seq<word>, c: seq<word>, n: seq<word>, live: set<Block>, x: Block, p: nat, len: nat)
    requires |m| == |c| == |n| && p + len <= 4 * |m| && x !in live && Untouched(m, c, live)
    requires Filled(c, n, p, len, 0) && forall y :: y in live ==> SameBlock(c, n, y)
    ensures Untouched(m, n, live) && Zeroed(n, p, len)
  {
  }

  lemma MovedThrough(m: seq<word>, c: seq<word>, n: seq<word>, live: set<Block>, x: Block, y: Block)
    requires |m| == |c| == |n| && x.Next() <= |m| && y.Next() <= |m| && x in live && y !in live
    requires Untouched(m, c, live) && Untouched(c, n, live - {x}) && SamePayload(c, n, x, y)
    ensures Untouched(m, n, live - {x}) && SamePayload(m, n, x, y)
  {
    SameHere(m, c, x);
  }

  lemma CopiedThrough(m: seq<word>, c: seq<word>, n: seq<word>, rest: set<Block>, x: Block, y: Block)
    requires |m| == |c| == |n| && x.Next() <= |m| && y.Next() <= |m|
    requires Untouched(m, c, rest) && Untouched(c, n, rest + {y}) && SamePayload(m, c, x, y)
    ensures Untouched(m, n, rest) && SamePayload(m, n, x, y)
  {
    SameHere(c, n, y);
    assert n[y.at + 2..y.at + 2 + x.size] == n[y.at + 2..y.Next()][..x.size];
    assert c[y.at + 2..y.at + 2 + x.size] == c[y.at + 2..y.Next()][..x.size];
    assert y in rest + {y};
  }

  lemma Handed(m: seq<word>, n: seq<word>, i: nat, need: nat)
    requires Tiles(m, 0, HEAP_WORDS) && NoAdjacentFree(Blocks(m, 0, HEAP_WORDS))
    requires Tiles(n, 0, HEAP_WORDS) && |n| == HEAP_WORDS
    requires var s := Blocks(m, 0, HEAP_WORDS);
             && i < |s| && s[i].free && need <= s[i].size && Blocks(n, 0, HEAP_WORDS) == Allocated(s, i, need)
    ensures var x, s := Blocks(m, 0, HEAP_WORDS)[i], Blocks(n, 0, HEAP_WORDS);
            && x.at + 2 <= HEAP_WORDS == |n| && BlockAt(n, x.at) in s && !BlockAt(n, x.at).free
            && NewBlock(UsedIn(Blocks(m, 0, HEAP_WORDS)), UsedIn(s), BlockAt(n, x.at), need)
  {
    hide Tiles, Blocks, NoAdjacentFree;
    var s := Blocks(m, 0, HEAP_WORDS);
    AllocationKeeps(s, i, need);
    var y := Taken(s[i], need)[0];
    assert y in UsedIn(Allocated(s, i, need));
    BlockInside(n, 0, HEAP_WORDS, y);
    if y in UsedIn(s) {
      BlocksDisjoint(m, 0, HEAP_WORDS, s[i], y);
    }
  }

  lemma SameRefl(m: seq<word>)
    ensures forall x :: SameBlock(m, m, x)
  {
  }

  lemma CoalescedNone()
    ensures Coalesced([]) == []
  {
  }

  /** Advancing past a block that does not merge. */
  lemma SkipCorrect(c: seq<word>, b: nat, next: nat)
    requires Tiles(c, 0, b) && Tiles(c, b, HEAP_WORDS) && b < HEAP_WORDS && HeaderAt(c, b, HEAP_WORDS)
    requires next == BlockAt(c, b).Next() && Tiles(c, next, HEAP_WORDS)
    requires BlockAt(c, b).free && next < HEAP_WORDS ==> HeaderAt(c, next, HEAP_WORDS) && !BlockAt(c, next).free
    ensures Tiles(c, 0, next)
    ensures Blocks(c, 0, b) + Coalesced(Blocks(c, b, HEAP_WORDS))
            == Blocks(c, 0, next) + Coalesced(Blocks(c, next, HEAP_WORDS))
    ensures UsedIn(Blocks(c, 0, b)) + UsedIn(Blocks(c, b, HEAP_WORDS))
            == UsedIn(Blocks(c, 0, next)) + UsedIn(Blocks(c, next, HEAP_WORDS))
    ensures |Blocks(c, next, HEAP_WORDS)| < |Blocks(c, b, HEAP_WORDS)|
  {
    hide Coalesced, UsedIn, Blocks, Tiles;
    WalkOn(c, b, HEAP_WORDS);
    var x, rest := BlockAt(c, b), Blocks(c, next, HEAP_WORDS);
    if next < HEAP_WORDS {
      WalkOn(c, next, HEAP_WORDS);
    } else {
      TilesEnd(c, HEAP_WORDS);
    }
    UsedConcat(Blocks(c, 0, b), [x]);
    UsedConcat([x], rest);
    CoalescedCons(x, rest);
  }

  lemma CoalescedCons(x: Block, rest: seq<Block>)
    ensures rest != [] && x.free && rest[0].free ==>
              Coalesced([x] + rest) == Coalesced([Merge(x, rest[0])] + rest[1..])
    ensures !(rest != [] && x.free && rest[0].free) ==> Coalesced([x] + rest) == [x] + Coalesced(rest)
  {
    var s := [x] + rest;
    assert s[1..] == rest;
    assert rest != [] ==> s[2..] == rest[1..];
  }

  /** Growing the header at b over the free block at next. */
  lemma MergeCorrect(m: seq<word>, c: seq<word>, n: seq<word>, s: seq<Block>, b: nat, next: nat)
    requires |c| == HEAP_WORDS && Tiles(c, 0, b) && Tiles(c, b, HEAP_WORDS) && b < HEAP_WORDS
    requires HeaderAt(c, b, HEAP_WORDS) && next == BlockAt(c, b).Next() && next < HEAP_WORDS
    requires HeaderAt(c, next, HEAP_WORDS) && BlockAt(c, b).free && BlockAt(c, next).free
    requires n == c[b := (c[b] as int) + 8 + c[next]]
    requires UsedIn(Blocks(c, 0, b)) + UsedIn(Blocks(c, b, HEAP_WORDS)) == UsedIn(s)
    requires forall x :: x in UsedIn(s) ==> SameBlock(m, c, x)
    ensures Tiles(n, 0, b) && Tiles(n, b, HEAP_WORDS) && Blocks(n, 0, b) == Blocks(c, 0, b)
    ensures Coalesced(Blocks(n, b, HEAP_WORDS)) == Coalesced(Blocks(c, b, HEAP_WORDS))
    ensures UsedIn(Blocks(n, 0, b)) + UsedIn(Blocks(n, b, HEAP_WORDS)) == UsedIn(s)
    ensures forall x :: x in UsedIn(s) ==> SameBlock(m, n, x)
    ensures |Blocks(n, b, HEAP_WORDS)| < |Blocks(c, b, HEAP_WORDS)|
  {
    hide Blocks, Tiles, Coalesced, UsedIn, SameBlock;
    TilesFrame(c, n, 0, b);
    var rest := MergedTail(c, n, b, next);
    CoalescedPair(BlockAt(c, b), BlockAt(c, next), rest);
    MergeKeepsUsed(m, c, n, s, b, BlockAt(c, b));
  }

  lemma MergedTail(c: seq<word>, n: seq<word>, b: nat, next: nat) returns (rest: seq<Block>)
    requires |c| == HEAP_WORDS && Tiles(c, 0, b) && Tiles(c, b, HEAP_WORDS) && b < HEAP_WORDS
    requires HeaderAt(c, b, HEAP_WORDS) && next == BlockAt(c, b).Next() && next < HEAP_WORDS
    requires HeaderAt(c, next, HEAP_WORDS) && BlockAt(c, b).free && BlockAt(c, next).free
    requires n == c[b := (c[b] as int) + 8 + c[next]]
    ensures Tiles(n, b, HEAP_WORDS)
    ensures Blocks(n, b, HEAP_WORDS) == [Merge(BlockAt(c, b), BlockAt(c, next))] + rest
    ensures Blocks(c, b, HEAP_WORDS) == [BlockAt(c, b)] + ([BlockAt(c, next)] + rest)
  {
    hide Blocks, Tiles;
    var y := BlockAt(c, next);
    WalkOn(c, b, HEAP_WORDS);
    WalkOn(c, next, HEAP_WORDS);
    rest := Blocks(c, y.Next(), HEAP_WORDS);
    TilesFrame(c, n, y.Next(), HEAP_WORDS);
    OneBlock(n, b, y.Next());
    TilesJoin(n, b, y.Next(), HEAP_WORDS);
  }

  lemma CoalescedPair(x: Block, y: Block, rest: seq<Block>)
    requires x.free && y.free
    ensures Coalesced([x] + ([y] + rest)) == Coalesced([Merge(x, y)] + rest)
    ensures UsedIn([x] + ([y] + rest)) == UsedIn([Merge(x, y)] + rest)
  {
    hide Coalesced;
    CoalescedCons(x, [y] + rest);
    UsedConcat([Merge(x, y)], rest);
    UsedConcat([x], [y] + rest);
    UsedConcat([y], rest);
  }

  lemma MergeKeepsUsed(m: seq<word>, c: seq<word>, n: seq<word>, s: seq<Block>, b: nat, x: Block)
    requires |c| == HEAP_WORDS && Tiles(c, 0, b) && Tiles(c, b, HEAP_WORDS) && b < HEAP_WORDS
    requires HeaderAt(c, b, HEAP_WORDS) && x == BlockAt(c, b) && x.free
    requires |n| == |c| && forall i :: 0 <= i < |c| && i != b ==> n[i] == c[i]
    requires UsedIn(Blocks(c, 0, b)) + UsedIn(Blocks(c, b, HEAP_WORDS)) == UsedIn(s)
    requires forall y :: y in UsedIn(s) ==> SameBlock(m, c, y)
    ensures forall y :: y in UsedIn(s) ==> SameBlock(m, n, y)
  {
    TilesJoin(c, 0, b, HEAP_WORDS);
    var all := Blocks(c, 0, HEAP_WORDS);
    assert x in all by { WalkOn(c, b, HEAP_WORDS); }
    forall y | y in UsedIn(s)
      ensures SameBlock(m, n, y)
    {
      assert y in all && y != x && SameBlock(m, c, y);
      BlocksDisjoint(c, 0, HEAP_WORDS, x, y);
    }
  }

  /** Setting the free flag of x changes exactly that entry of the list. */
  lemma ReleaseHeader(m: seq<word>, n: seq<word>, x: Block) returns (i: nat)
    requires |m| == HEAP_WORDS && Tiles(m, 0, HEAP_WORDS) && x in Blocks(m, 0, HEAP_WORDS)
    requires x.at + 2 <= |m| && n == m[x.at + 1 := 1]
    ensures Tiles(n, 0, HEAP_WORDS)
    ensures var s := Blocks(m, 0, HEAP_WORDS);
            && i < |s| && s[i] == x && Blocks(n, 0, HEAP_WORDS) == s[..i] + [x.(free := true)] + s[i + 1..]
            && (forall j :: 0 <= j < |s| && j != i ==> s[j] != x)
            && forall y :: y in UsedIn(s) && y != x ==> SameBlock(m, n, y)
  {
    BlockInside(m, 0, HEAP_WORDS, x);
    hide Blocks, Tiles, SameBlock;
    var s := Blocks(m, 0, HEAP_WORDS);
    OneBlock(n, x.at, x.Next());
    Retile(m, n, x.at, x.Next(), HEAP_WORDS);
    i := |Blocks(m, 0, x.at)|;
    Around(s, Blocks(m, 0, x.at), x, Blocks(m, x.Next(), HEAP_WORDS));
    OthersKeep(m, n, x);
    Unique(m, x);
  }

  lemma Unique(m: seq<word>, x: Block)
    requires |m| == HEAP_WORDS && Tiles(m, 0, x.at) && Tiles(m, x.Next(), HEAP_WORDS) && x.Next() <= HEAP_WORDS
    requires Tiles(m, 0, HEAP_WORDS)
    requires Blocks(m, 0, HEAP_WORDS) == Blocks(m, 0, x.at) + [x] + Blocks(m, x.Next(), HEAP_WORDS)
    ensures var s := Blocks(m, 0, HEAP_WORDS);
            forall j :: 0 <= j < |s| && j != |Blocks(m, 0, x.at)| ==> s[j] != x
  {
    var before, after := Blocks(m, 0, x.at), Blocks(m, x.Next(), HEAP_WORDS);
    forall j | 0 <= j < |before|
      ensures before[j] != x
    {
      BlockInside(m, 0, x.at, before[j]);
    }
    forall j | 0 <= j < |after|
      ensures after[j] != x
    {
      BlockInside(m, x.Next(), HEAP_WORDS, after[j]);
    }
  }

  lemma TilesStart(m: seq<word>, e: nat)
    requires Tiles(m, 0, e)
    ensures Tiles(m, 0, 0) && Blocks(m, 0, 0) == []
  {
  }

  lemma TilesEnd(m: seq<word>, e: nat)
    ensures Tiles(m, e, e) && Blocks(m, e, e) == []
  {
  }

  lemma {:induction false} FirstFitIs(before: seq<Block>, x: Block, after: seq<Block>, need: nat)
    requires x.free && x.size >= need && forall y :: y in before && y.free ==> y.size < need
    ensures FirstFit(before + [x] + after, need) == Some(|before|)
    decreases |before|
  {
    if before != [] {
      assert before[0] in before;
      FirstFitIs(before[1..], x, after, need);
      assert (before + [x] + after)[1..] == before[1..] + [x] + after;
    }
  }

  lemma {:induction false} NoneFits(s: seq<Block>, need: nat)
    requires forall x :: x in s && x.free ==> x.size < need
    ensures FirstFit(s, need).None?
  {
    if s != [] {
      assert s[0] in s;
      NoneFits(s[1..], need);
    }
  }

  /** The heap after `need` words are taken from the free block at b. */
  function TakenWords(m: seq<word>, b: nat, need: nat): (n: seq<word>)
    requires HeaderAt(m, b, |m|) && need <= BlockAt(m, b).size
    ensures |n| == |m|
  {
    var size := BlockAt(m, b).size;
    if size - need >= 3 && |m| <= HEAP_WORDS then
      m[b + 2 + need := (size - need - 2) * 4][b + 3 + need := 1][b := need * 4][b + 1 := 0]
    else m[b + 1 := 0]
  }

  lemma TakenTiles(m: seq<word>, b: nat, need: nat)
    requires |m| == HEAP_WORDS && HeaderAt(m, b, HEAP_WORDS)
    requires need <= BlockAt(m, b).size
    ensures var x, n := BlockAt(m, b), TakenWords(m, b, need);
            && Tiles(n, b, x.Next()) && Blocks(n, b, x.Next()) == Taken(x, need)
            && forall j :: 0 <= j < |m| && !(b <= j < x.Next()) ==> n[j] == m[j]
  {
    hide Blocks, Tiles;
    var x, n := BlockAt(m, b), TakenWords(m, b, need);
    if x.size - need >= 3 {
      TwoBlocks(n, b, b + 2 + need, x.Next());
    } else {
      OneBlock(n, b, x.Next());
    }
  }

  /** Taking words is Allocated on the list, and changes no other block. */
  lemma TakeCorrect(m: seq<word>, b: nat, need: nat)
    requires |m| == HEAP_WORDS && Tiles(m, 0, b) && Tiles(m, b, HEAP_WORDS) && b < HEAP_WORDS
    requires Tiles(m, 0, HEAP_WORDS) && BlockAt(m, b).free && need <= BlockAt(m, b).size
    requires Blocks(m, 0, HEAP_WORDS) == Blocks(m, 0, b) + Blocks(m, b, HEAP_WORDS)
    ensures var n, i := TakenWords(m, b, need), |Blocks(m, 0, b)|;
            && i < |Blocks(m, 0, HEAP_WORDS)| && Blocks(m, 0, HEAP_WORDS)[i] == BlockAt(m, b)
            && Tiles(n, 0, HEAP_WORDS) && Blocks(n, 0, HEAP_WORDS) == Allocated(Blocks(m, 0, HEAP_WORDS), i, need)
            && forall y :: y in UsedIn(Blocks(m, 0, HEAP_WORDS)) ==> SameBlock(m, n, y)
  {
    hide Blocks, Tiles, TakenWords, SameBlock, Taken;
    WalkOn(m, b, HEAP_WORDS);
    var x, n := BlockAt(m, b), TakenWords(m, b, need);
    var s, i := Blocks(m, 0, HEAP_WORDS), |Blocks(m, 0, b)|;
    TakenTiles(m, b, need);
    Retile(m, n, b, x.Next(), HEAP_WORDS);
    Around(s, Blocks(m, 0, b), x, Blocks(m, x.Next(), HEAP_WORDS));
    OthersKeep(m, n, x);
  }

  lemma Around(s: seq<Block>, before: seq<Block>, x: Block, after: seq<Block>)
    requires s == before + [x] + after
    ensures x in s && s[|before|] == x && s[..|before|] == before && s[|before| + 1..] == after
  {
  }

  /** Stepping over the block at b. */
  lemma WalkOn(m: seq<word>, b: nat, e: nat)
    requires Tiles(m, 0, b) && Tiles(m, b, e) && b < e
    ensures HeaderAt(m, b, e)
    ensures var x := BlockAt(m, b);
            && x.Next() <= e && Tiles(m, 0, x.Next()) && Tiles(m, x.Next(), e)
            && Blocks(m, 0, x.Next()) == Blocks(m, 0, b) + [x]
            && Blocks(m, b, e) == [x] + Blocks(m, x.Next(), e)
  {
    OneBlock(m, b, BlockAt(m, b).Next());
    TilesBounds(m, BlockAt(m, b).Next(), e);
    TilesJoin(m, 0, b, BlockAt(m, b).Next());
  }
}
