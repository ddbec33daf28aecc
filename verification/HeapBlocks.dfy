/** The block list that libc/stdlib.c keeps inside the heap's own memory: each block is a
    two-word header, payload size in bytes and a free flag, followed by the payload. */
module HeapBlocks {
  import opened Words

  /** at: word index of the header; size: payload words. */
  datatype Block = Block(at: nat, size: nat, free: bool) {
    function Next(): nat { at + 2 + size }
  }

  /** A header at word `at` whose block ends by word `end`. */
  predicate HeaderAt(mem: seq<word>, at: nat, end: nat) {
    && at + 2 <= end <= |mem| && mem[at] % 4 == 0 && mem[at + 1] <= 1
    && at + 2 + mem[at] / 4 <= end
  }

  function BlockAt(mem: seq<word>, at: nat): Block
    requires at + 2 <= |mem|
  {
    Block(at, mem[at] / 4, mem[at + 1] == 1)
  }

  /** Headers tile the words from a to b exactly. */
  ghost predicate Tiles(mem: seq<word>, a: nat, b: nat)
    decreases b - a
  {
    a == b || (HeaderAt(mem, a, b) && Tiles(mem, BlockAt(mem, a).Next(), b))
  }

  /** The blocks between a and b. */
  ghost function Blocks(mem: seq<word>, a: nat, b: nat): (s: seq<Block>)
    requires Tiles(mem, a, b)
    decreases b - a
  {
    if a == b then [] else [BlockAt(mem, a)] + Blocks(mem, BlockAt(mem, a).Next(), b)
  }

  lemma {:induction false} TilesBounds(mem: seq<word>, a: nat, b: nat)
    requires Tiles(mem, a, b)
    ensures a <= b && (a < b ==> b <= |mem|)
    decreases b - a
  {
    if a != b {
      TilesBounds(mem, BlockAt(mem, a).Next(), b);
    }
  }

  /** Two adjoining tilings make one. */
  lemma {:induction false} TilesJoin(mem: seq<word>, a: nat, b: nat, c: nat)
    requires Tiles(mem, a, b) && Tiles(mem, b, c)
    ensures Tiles(mem, a, c) && Blocks(mem, a, c) == Blocks(mem, a, b) + Blocks(mem, b, c)
    decreases b - a
  {
    TilesBounds(mem, a, b);
    TilesBounds(mem, b, c);
    if a != b {
      var next := BlockAt(mem, a).Next();
      TilesJoin(mem, next, b, c);
      assert HeaderAt(mem, a, c);
      assert Blocks(mem, a, c) == [BlockAt(mem, a)] + Blocks(mem, next, c);
      assert Blocks(mem, a, b) == [BlockAt(mem, a)] + Blocks(mem, next, b);
    } else {
      assert Blocks(mem, a, b) == [];
    }
  }

  /** A tiling depends only on the words it covers. */
  lemma {:induction false} TilesFrame(m: seq<word>, n: seq<word>, a: nat, b: nat)
    requires Tiles(m, a, b) && |m| == |n| && forall i :: a <= i < b && i < |m| ==> m[i] == n[i]
    ensures Tiles(n, a, b) && Blocks(n, a, b) == Blocks(m, a, b)
    decreases b - a
  {
    if a != b {
      TilesFrame(m, n, BlockAt(m, a).Next(), b);
    }
  }

  /** Every listed block is a real one, inside the range, with the rest tiled around it. */
  lemma {:induction false} BlockInside(mem: seq<word>, a: nat, b: nat, x: Block)
    requires Tiles(mem, a, b) && x in Blocks(mem, a, b)
    ensures a <= x.at && x.Next() <= b <= |mem| && x == BlockAt(mem, x.at) && HeaderAt(mem, x.at, b)
    ensures Tiles(mem, a, x.at) && Tiles(mem, x.Next(), b)
    ensures Blocks(mem, a, b) == Blocks(mem, a, x.at) + [x] + Blocks(mem, x.Next(), b)
    decreases b - a
  {
    TilesBounds(mem, a, b);
    var h := BlockAt(mem, a);
    if x != h {
      BlockInside(mem, h.Next(), b, x);
      assert Tiles(mem, a, x.at) by { HeaderShrinks(mem, a, b, h.Next(), x.at); }
      assert Blocks(mem, a, x.at) == [h] + Blocks(mem, h.Next(), x.at);
    }
  }

  lemma HeaderShrinks(mem: seq<word>, a: nat, b: nat, next: nat, c: nat)
    requires HeaderAt(mem, a, b) && next == BlockAt(mem, a).Next() && Tiles(mem, next, c) && c <= b
    ensures a < c ==> Tiles(mem, a, c)
    ensures next <= c
  {
    TilesBounds(mem, next, c);
  }

  /** Different blocks do not overlap. */
  lemma {:induction false} BlocksDisjoint(mem: seq<word>, a: nat, b: nat, x: Block, y: Block)
    requires Tiles(mem, a, b) && x in Blocks(mem, a, b) && y in Blocks(mem, a, b) && x != y
    ensures x.Next() <= y.at || y.Next() <= x.at
    decreases b - a
  {
    var h := BlockAt(mem, a);
    TilesBounds(mem, a, b);
    var rest := Blocks(mem, h.Next(), b);
    if x != h && y != h {
      BlocksDisjoint(mem, h.Next(), b, x, y);
    } else if x == h {
      BlockInside(mem, h.Next(), b, y);
    } else {
      BlockInside(mem, h.Next(), b, x);
    }
  }

  /** At a boundary of a tiling, the words after it are tiled too. */
  lemma {:induction false} TilesFrom(mem: seq<word>, a: nat, b: nat, c: nat)
    requires Tiles(mem, a, c) && Tiles(mem, a, b) && b <= c
    ensures Tiles(mem, b, c)
    decreases b - a
  {
    if a != b {
      TilesBounds(mem, a, b);
      TilesFrom(mem, BlockAt(mem, a).Next(), b, c);
    }
  }

  // The list operations the allocator performs.

  ghost predicate NoAdjacentFree(s: seq<Block>) {
    forall i :: 0 <= i < |s| - 1 ==> !(s[i].free && s[i + 1].free)
  }

  ghost function UsedIn(s: seq<Block>): set<Block> { set b | b in s && !b.free }

  function Merge(a: Block, b: Block): Block { Block(a.at, a.size + 2 + b.size, true) }

  /** What one pass of heap_coalesce leaves. */
  function Coalesced(s: seq<Block>): (r: seq<Block>)
    decreases |s|
  {
    if |s| < 2 then s
    else if s[0].free && s[1].free then Coalesced([Merge(s[0], s[1])] + s[2..])
    else [s[0]] + Coalesced(s[1..])
  }

  lemma {:induction false} CoalescedFirst(s: seq<Block>)
    requires s != []
    ensures Coalesced(s) != [] && Coalesced(s)[0].free == s[0].free && Coalesced(s)[0].at == s[0].at
    decreases |s|
  {
    if |s| >= 2 && s[0].free && s[1].free {
      CoalescedFirst([Merge(s[0], s[1])] + s[2..]);
    }
  }

  lemma UsedConcat(s: seq<Block>, t: seq<Block>)
    ensures UsedIn(s + t) == UsedIn(s) + UsedIn(t)
  {
    assert forall b :: b in s + t <==> b in s || b in t;
  }

  lemma ConsApart(x: Block, s: seq<Block>)
    requires NoAdjacentFree(s) && (s != [] ==> !(x.free && s[0].free))
    ensures NoAdjacentFree([x] + s)
  {
    var t := [x] + s;
    forall i | 0 <= i < |t| - 1
      ensures !(t[i].free && t[i + 1].free)
    {
      if i > 0 {
        assert t[i] == s[i - 1] && t[i + 1] == s[i];
      }
    }
  }

  /** Coalescing leaves no two neighbours free, and no used block is touched. */
  lemma {:induction false} CoalescedIsMerged(s: seq<Block>)
    ensures NoAdjacentFree(Coalesced(s)) && UsedIn(Coalesced(s)) == UsedIn(s)
    decreases |s|
  {
    hide NoAdjacentFree;
    if |s| < 2 {
      ShortApart(s);
    } else if s[0].free && s[1].free {
      var m := [Merge(s[0], s[1])];
      CoalescedIsMerged(m + s[2..]);
      UsedConcat(m, s[2..]);
      UsedConcat([s[0], s[1]], s[2..]);
      assert s == [s[0], s[1]] + s[2..];
    } else {
      CoalescedIsMerged(s[1..]);
      CoalescedFirst(s[1..]);
      ConsApart(s[0], Coalesced(s[1..]));
      UsedConcat([s[0]], s[1..]);
      UsedConcat([s[0]], Coalesced(s[1..]));
      assert s == [s[0]] + s[1..];
    }
  }

  lemma ShortApart(s: seq<Block>)
    requires |s| < 2
    ensures NoAdjacentFree(s)
  {
  }

  lemma AllFreeShort(s: seq<Block>)
    ensures UsedIn(s) == {} && |s| >= 2 ==> !NoAdjacentFree(s)
    ensures UsedIn(s) == {} ==> forall x :: x in s ==> x.free
  {
    if UsedIn(s) == {} {
      forall x | x in s
        ensures x.free
      {
        assert x.free || x in UsedIn(s);
      }
      if |s| >= 2 {
        assert s[0].free && s[0 + 1].free;
      }
    }
  }

  /** A tiling without used blocks and without adjacent free ones is a single block. */
  lemma AllFreeIsOne(mem: seq<word>, a: nat, b: nat)
    requires Tiles(mem, a, b) && a < b
    requires UsedIn(Blocks(mem, a, b)) == {} && NoAdjacentFree(Blocks(mem, a, b))
    ensures Blocks(mem, a, b) == [Block(a, b - a - 2, true)]
  {
    AllFreeShort(Blocks(mem, a, b));
  }
}
