/** Descriptor chains of soc/virtio.py: the buffers a chain of table entries names, in order,
    and what reading them and writing through them means. */
module Chain {
  import opened Words
  import opened Memory
  import opened Ring

  // Table entries: five words each, of which addr, len, flags and next are used.

  function EntryAt(q: Layout, index: nat): nat { q.desc + index * 20 }

  function Buffer(m: seq<byte>, q: Layout, index: nat): Area
    requires EntryAt(q, index) + 20 <= |m|
  {
    Area(WordAt(m, EntryAt(q, index)), WordAt(m, EntryAt(q, index) + 8))
  }

  /** flags & FLAG_NEXT */
  predicate HasNext(m: seq<byte>, q: Layout, index: nat)
    requires EntryAt(q, index) + 20 <= |m|
  {
    WordAt(m, EntryAt(q, index) + 12) % 2 == 1
  }

  function Next(m: seq<byte>, q: Layout, index: nat): word
    requires EntryAt(q, index) + 20 <= |m|
  {
    WordAt(m, EntryAt(q, index) + 16)
  }

  /** The chain that starts at table entry `head` ends, and names exactly these buffers. */
  ghost predicate ChainIs(m: seq<byte>, q: Layout, head: nat, bufs: seq<Area>)
    requires q.Table().End() <= |m|
    decreases |bufs|
  {
    && head < q.num && bufs != [] && Buffer(m, q, head) == bufs[0] && bufs[0].End() <= |m|
    && if HasNext(m, q, head) then ChainIs(m, q, Next(m, q, head), bufs[1..]) else |bufs| == 1
  }

  lemma EntrySame(m: seq<byte>, n: seq<byte>, q: Layout, index: nat)
    requires q.Table().End() <= |m| && Same(m, n, q.Table()) && index < q.num
    ensures Buffer(n, q, index) == Buffer(m, q, index) && HasNext(n, q, index) == HasNext(m, q, index)
    ensures Next(n, q, index) == Next(m, q, index)
  {
    hide WordAt;
    var at := EntryAt(q, index);
    WordSame(m, n, q.Table(), at);
    WordSame(m, n, q.Table(), at + 8);
    WordSame(m, n, q.Table(), at + 12);
    WordSame(m, n, q.Table(), at + 16);
  }

  lemma {:induction false} ChainFrame(m: seq<byte>, n: seq<byte>, q: Layout, head: nat, bufs: seq<Area>)
    requires q.Table().End() <= |m| && Same(m, n, q.Table()) && ChainIs(m, q, head, bufs)
    ensures ChainIs(n, q, head, bufs)
    decreases |bufs|
  {
    hide Buffer, HasNext, Next;
    EntrySame(m, n, q, head);
    if HasNext(m, q, head) {
      ChainFrame(m, n, q, Next(m, q, head), bufs[1..]);
    }
  }

  /** A chain has one meaning. */
  lemma {:induction false} ChainIsUnique(m: seq<byte>, q: Layout, head: nat, a: seq<Area>, b: seq<Area>)
    requires q.Table().End() <= |m| && ChainIs(m, q, head, a) && ChainIs(m, q, head, b)
    ensures a == b
    decreases |a|
  {
    hide Buffer, HasNext, Next;
    if HasNext(m, q, head) {
      ChainIsUnique(m, q, Next(m, q, head), a[1..], b[1..]);
      assert a == [a[0]] + a[1..] && b == [b[0]] + b[1..];
    }
  }

  // What the buffers hold.

  ghost predicate InBounds(bufs: seq<Area>, size: nat) {
    forall b :: b in bufs ==> b.End() <= size
  }

  lemma {:induction false} ChainInBounds(m: seq<byte>, q: Layout, head: nat, bufs: seq<Area>)
    requires q.Table().End() <= |m| && ChainIs(m, q, head, bufs)
    ensures InBounds(bufs, |m|)
    decreases |bufs|
  {
    hide Buffer, HasNext, Next;
    if HasNext(m, q, head) {
      ChainInBounds(m, q, Next(m, q, head), bufs[1..]);
    }
    assert bufs == [bufs[0]] + bufs[1..];
  }

  function Capacity(bufs: seq<Area>): nat {
    if bufs == [] then 0 else bufs[0].len + Capacity(bufs[1..])
  }

  function Gather(m: seq<byte>, bufs: seq<Area>): (data: seq<byte>)
    requires InBounds(bufs, |m|)
    ensures |data| == Capacity(bufs)
  {
    if bufs == [] then []
    else
      assert bufs[0] in bufs;
      m[bufs[0].at..bufs[0].End()] + Gather(m, bufs[1..])
  }

  function Min(a: nat, b: nat): nat { if a < b then a else b }

  function Scatter(m: seq<byte>, bufs: seq<Area>, data: seq<byte>): (n: seq<byte>)
    requires InBounds(bufs, |m|)
    ensures |n| == |m|
    decreases |bufs|
  {
    if bufs == [] || data == [] then m
    else
      assert bufs[0] in bufs;
      var k := Min(bufs[0].len, |data|);
      Scatter(Splice(m, bufs[0].at, data[..k]), bufs[1..], data[k..])
  }

  ghost predicate AllApart(bufs: seq<Area>, a: Area) {
    forall b :: b in bufs ==> Apart(b, a)
  }

  /** No two buffers of a chain overlap. */
  ghost predicate Separate(bufs: seq<Area>) {
    forall i, j :: 0 <= i < j < |bufs| ==> Apart(bufs[i], bufs[j])
  }

  lemma SpliceSame(m: seq<byte>, b: Area, data: seq<byte>, a: Area)
    requires b.at + b.len <= |m| && |data| <= b.len && Apart(b, a)
    ensures Same(m, Splice(m, b.at, data), a)
  {
  }

  /** Writing through a chain changes nothing apart from its buffers. */
  lemma {:induction false} ScatterFrame(m: seq<byte>, bufs: seq<Area>, data: seq<byte>, a: Area)
    requires InBounds(bufs, |m|) && AllApart(bufs, a)
    ensures Same(m, Scatter(m, bufs, data), a)
    decreases |bufs|
  {
    if bufs != [] && data != [] {
      var b := bufs[0];
      var k := Min(b.len, |data|);
      assert b in bufs;
      SpliceSame(m, b, data[..k], a);
      ScatterFrame(Splice(m, b.at, data[..k]), bufs[1..], data[k..], a);
    }
  }

  lemma {:induction false} GatherFrame(m: seq<byte>, n: seq<byte>, bufs: seq<Area>)
    requires InBounds(bufs, |m|) && |m| == |n| && forall b :: b in bufs ==> Same(m, n, b)
    ensures Gather(n, bufs) == Gather(m, bufs)
    decreases |bufs|
  {
    if bufs != [] {
      assert bufs[0] in bufs;
      GatherFrame(m, n, bufs[1..]);
      assert n[bufs[0].at..bufs[0].End()] == m[bufs[0].at..bufs[0].End()];
    }
  }

  /** What was written through a chain is what reading it yields, as far as it fits. */
  lemma {:induction false} ScatterGather(m: seq<byte>, bufs: seq<Area>, data: seq<byte>)
    requires InBounds(bufs, |m|) && Separate(bufs)
    ensures var w := Min(|data|, Capacity(bufs));
            Gather(Scatter(m, bufs, data), bufs)[..w] == data[..w]
    decreases |bufs|
  {
    if bufs != [] && data != [] {
      var b, rest := bufs[0], bufs[1..];
      Rest(m, bufs);
      var k := Min(b.len, |data|);
      var m1 := Splice(m, b.at, data[..k]);
      var n := Scatter(m1, rest, data[k..]);
      assert m1[b.at..b.at + k] == data[..k];
      assert n == Scatter(m, bufs, data);
      GatherCons(n, bufs);
      hide Splice, Separate, InBounds, AllApart, Same, Gather, Scatter;
      ScatterGather(m1, rest, data[k..]);
      ScatterFrame(m1, rest, data[k..], b);
      FirstPart(m1, n, b, data[..k]);
      Parts(n[b.at..b.End()], Gather(n, rest), data, k, Min(|data| - k, Capacity(rest)));
    }
  }

  lemma GatherCons(m: seq<byte>, bufs: seq<Area>)
    requires InBounds(bufs, |m|) && bufs != []
    ensures bufs[0].End() <= |m| && InBounds(bufs[1..], |m|)
    ensures Gather(m, bufs) == m[bufs[0].at..bufs[0].End()] + Gather(m, bufs[1..])
    ensures Capacity(bufs) == bufs[0].len + Capacity(bufs[1..])
  {
    assert bufs[0] in bufs;
  }

  lemma Rest(m: seq<byte>, bufs: seq<Area>)
    requires InBounds(bufs, |m|) && Separate(bufs) && bufs != []
    ensures bufs[0].End() <= |m| && InBounds(bufs[1..], |m|) && Separate(bufs[1..]) && AllApart(bufs[1..], bufs[0])
  {
    assert bufs[0] in bufs;
  }

  lemma FirstPart(m: seq<byte>, n: seq<byte>, b: Area, chunk: seq<byte>)
    requires b.End() <= |m| && Same(m, n, b) && |chunk| <= b.len && m[b.at..b.at + |chunk|] == chunk
    ensures n[b.at..b.End()][..|chunk|] == chunk
  {
  }

  lemma Parts(first: seq<byte>, rest: seq<byte>, data: seq<byte>, k: nat, w: nat)
    requires k <= |first| && k + w <= |data| && w <= |rest| && first[..k] == data[..k]
    requires rest[..w] == data[k..][..w] && (w > 0 ==> k == |first|)
    ensures (first + rest)[..k + w] == data[..k + w]
  {
    if w == 0 {
      assert (first + rest)[..k] == first[..k];
    } else {
      assert (first + rest)[..k + w] == first + rest[..w];
      assert data[..k + w] == data[..k] + data[k..][..w];
    }
  }
}
