/** What the owner of a live block may do to the heap: store into its payload. */
module HeapPayload {
  import opened Words
  import opened Memory
  import opened HeapBlocks

  /** A big-endian word with its byte k replaced. */
  function PutByte(w: word, k: nat, v: byte): (r: word)
    requires k < 4
    ensures WordBytes(r) == WordBytes(w)[k := v]
  {
    BytesOfWord(WordBytes(w)[k := v]);
    WordAt(WordBytes(w)[k := v], 0)
  }

  /** Byte at offset a of the heap. */
  function HeapByte(m: seq<word>, a: nat): byte
    requires a / 4 < |m|
  {
    WordBytes(m[a / 4])[a % 4]
  }

  /** A block's header and payload are the same words in both memories. */
  ghost predicate SameBlock(m: seq<word>, n: seq<word>, x: Block) {
    |m| == |n| && forall i :: x.at <= i < x.Next() && i < |m| ==> n[i] == m[i]
  }

  /** Words outside the payload of x are the same in both memories. */
  ghost predicate OnlyPayload(m: seq<word>, n: seq<word>, x: Block) {
    |m| == |n| && forall i :: 0 <= i < |m| && !(x.at + 2 <= i < x.Next()) ==> n[i] == m[i]
  }

  /** Words outside [b, c) unchanged and [b, c) tiled anew: the lists are spliced. */
  lemma Retile(m: seq<word>, n: seq<word>, b: nat, c: nat, e: nat)
    requires |m| == |n| && Tiles(m, 0, b) && Tiles(m, c, e) && Tiles(n, b, c)
    requires b <= c <= e <= |m|
    requires forall i :: 0 <= i < |m| && !(b <= i < c) ==> n[i] == m[i]
    ensures Tiles(n, 0, e)
    ensures Blocks(n, 0, e) == Blocks(m, 0, b) + Blocks(n, b, c) + Blocks(m, c, e)
  {
    hide Blocks, Tiles;
    TilesFrame(m, n, 0, b);
    TilesFrame(m, n, c, e);
    TilesJoin(n, b, c, e);
    TilesJoin(n, 0, b, e);
  }

  /** One block in [b, c). */
  lemma OneBlock(n: seq<word>, b: nat, c: nat)
    requires HeaderAt(n, b, c) && BlockAt(n, b).Next() == c
    ensures Tiles(n, b, c) && Blocks(n, b, c) == [BlockAt(n, b)]
  {
    assert Tiles(n, c, c);
  }

  /** Writing only inside block x leaves every other block of the list alone. */
  lemma OthersKeep(m: seq<word>, n: seq<word>, x: Block)
    requires Tiles(m, 0, |m|) && x in Blocks(m, 0, |m|)
    requires |m| == |n| && forall i :: 0 <= i < |m| && !(x.at <= i < x.Next()) ==> n[i] == m[i]
    ensures forall y :: y in Blocks(m, 0, |m|) && y != x ==> SameBlock(m, n, y)
  {
    forall y | y in Blocks(m, 0, |m|) && y != x
      ensures SameBlock(m, n, y)
    {
      BlocksDisjoint(m, 0, |m|, x, y);
    }
  }

  /** Stores into the payload of a block keep the whole block list and every other block. */
  lemma PayloadStores(m: seq<word>, n: seq<word>, x: Block)
    requires Tiles(m, 0, |m|) && x in Blocks(m, 0, |m|) && OnlyPayload(m, n, x)
    ensures Tiles(n, 0, |m|) && Blocks(n, 0, |m|) == Blocks(m, 0, |m|)
    ensures forall y :: y in Blocks(m, 0, |m|) && y != x ==> SameBlock(m, n, y)
  {
    hide Blocks, Tiles, SameBlock;
    BlockInside(m, 0, |m|, x);
    OneBlock(n, x.at, x.Next());
    Retile(m, n, x.at, x.Next(), |m|);
    OthersKeep(m, n, x);
  }

  /** n is m with bytes p to p + len set to v. */
  ghost predicate Filled(m: seq<word>, n: seq<word>, p: nat, len: nat, v: byte) {
    |m| == |n|
    && forall a: nat :: a / 4 < |m| ==> HeapByte(n, a) == if p <= a < p + len then v else HeapByte(m, a)
  }

  /** memset: len bytes from byte p on. */
  method Memset(mem: array<word>, p: nat, v: byte, len: nat)
    requires p % 4 == 0 && p + len <= 4 * mem.Length
    modifies mem
    ensures Filled(old(mem[..]), mem[..], p, len, v)
    ensures forall i :: 0 <= i < mem.Length && !(p / 4 <= i < (p + len + 3) / 4) ==> mem[i] == old(mem[i])
  {
    hide WordBytes, PutByte, HeapByte;
    var k := 0;
    while k < len
      invariant 0 <= k <= len
      invariant Filled(old(mem[..]), mem[..], p, k, v)
      invariant forall i :: 0 <= i < mem.Length && !(p / 4 <= i < (p + len + 3) / 4) ==> mem[i] == old(mem[i])
    {
      ghost var m := mem[..];
      mem[(p + k) / 4] := PutByte(mem[(p + k) / 4], (p + k) % 4, v);
      BytePut(m, mem[..], p + k, v);
      k := k + 1;
    }
  }

  lemma BytePut(m: seq<word>, n: seq<word>, p: nat, v: byte)
    requires p / 4 < |m| && n == m[p / 4 := PutByte(m[p / 4], p % 4, v)]
    ensures Filled(m, n, p, 1, v)
  {
    hide WordBytes, PutByte;
    forall a: nat | a / 4 < |m|
      ensures HeapByte(n, a) == if a == p then v else HeapByte(m, a)
    {
      if a / 4 == p / 4 {
        assert a == p <==> a % 4 == p % 4;
      }
    }
  }

  /** memcpy between word-aligned places that do not overlap, a whole number of words. */
  method Memcpy(mem: array<word>, to: nat, from: nat, n: nat)
    requires to + n <= mem.Length && from + n <= mem.Length && (to + n <= from || from + n <= to)
    modifies mem
    ensures mem[to..to + n] == old(mem[from..from + n])
    ensures forall i :: 0 <= i < mem.Length && !(to <= i < to + n) ==> mem[i] == old(mem[i])
  {
    var k := 0;
    while k < n
      invariant 0 <= k <= n
      invariant mem[to..to + k] == old(mem[from..from + k])
      invariant forall i :: 0 <= i < mem.Length && !(to <= i < to + n) ==> mem[i] == old(mem[i])
    {
      mem[to + k] := mem[from + k];
      k := k + 1;
    }
  }
}
