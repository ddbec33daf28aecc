/** class Virtqueue of soc/virtio.py: the device's end of a split virtqueue in guest memory. */
module VirtQueue {
  import opened Words
  import opened Memory
  import opened Ring
  import opened Chain

  class Virtqueue {
    const ram: array<byte>
    const layout: Layout
    var lastAvailIdx: word

    constructor (ram: array<byte>, layout: Layout)
      ensures this.ram == ram && this.layout == layout && lastAvailIdx == 0
    {
      this.ram, this.layout, lastAvailIdx := ram, layout, 0;
    }

    method Read32(at: nat) returns (w: word)
      requires at + 4 <= ram.Length
      ensures w == WordAt(ram[..], at)
    {
      w := (ram[at] as int) * 0x100_0000 + (ram[at + 1] as int) * 0x1_0000 + (ram[at + 2] as int) * 0x100 + ram[at + 3];
    }

    method Write32(at: nat, w: word)
      requires at + 4 <= ram.Length
      modifies ram
      ensures ram[..] == Store(old(ram[..]), at, w)
    {
      ram[at], ram[at + 1] := LowByte(w / 0x100_0000), LowByte(w / 0x1_0000);
      ram[at + 2], ram[at + 3] := LowByte(w / 0x100), LowByte(w);
    }

    method Descriptor(index: nat) returns (addr: word, length: word, next: bool, link: word)
      requires layout.Table().End() <= ram.Length && index < layout.num
      ensures Area(addr, length) == Buffer(ram[..], layout, index)
      ensures next == HasNext(ram[..], layout, index) && link == Next(ram[..], layout, index)
      ensures Entry(ram[..], layout.desc + 20 * index, addr, length, next, link)
    {
      hide WordAt;
      var base := layout.desc + index * 20;
      addr := Read32(base);
      length := Read32(base + 8);
      var flags := Read32(base + 12);
      next := flags % 2 == 1;
      link := Read32(base + 16);
    }

    method HasPending() returns (b: bool)
      requires layout.AvailArea().End() <= ram.Length
      ensures b == (lastAvailIdx != AvailIdx(ram[..], layout))
      ensures b <==> lastAvailIdx != WordAt(ram[..], layout.avail + 4)
    {
      var idx := Read32(layout.avail + 4);
      b := lastAvailIdx != idx;
    }

    method NextPending() returns (head: word)
      requires layout.num > 0 && layout.AvailArea().End() <= ram.Length
      ensures head == AvailRing(ram[..], layout, Slot(lastAvailIdx, layout.num))
      ensures InSlot(ram[..], layout.avail + 8, layout.num, lastAvailIdx, head)
    {
      SlotTwice(lastAvailIdx, layout.num);
      head := Read32(layout.avail + 8 + Slot(Slot(lastAvailIdx, layout.num), layout.num) * 4);
    }

    method Advance()
      modifies this`lastAvailIdx
      ensures lastAvailIdx == Wrap((old(lastAvailIdx) as int) + 1)
    {
      lastAvailIdx := Wrap((lastAvailIdx as int) + 1);
    }

    /** Following the chain's links collects its buffers' bytes in order. */
    method ReadChain(head: word, ghost bufs: seq<Area>) returns (data: seq<byte>)
      requires layout.Table().End() <= ram.Length && ChainIs(ram[..], layout, head, bufs)
      ensures InBounds(bufs, ram.Length) && data == Gather(ram[..], bufs)
    {
      hide Buffer, HasNext, Next, ChainIs, Gather, Entry;
      ChainInBounds(ram[..], layout, head, bufs);
      ghost var m := ram[..];
      ghost var rest := bufs;
      data := [];
      var index: nat := head;
      while true
        invariant ChainIs(m, layout, index, rest) && InBounds(rest, |m|)
        invariant data + Gather(m, rest) == Gather(m, bufs)
        decreases |rest|
      {
        ReadStep(m, layout, index, rest);
        var addr, length, next, link := Descriptor(index);
        data := data + ram[addr..(addr as nat) + length];
        rest := rest[1..];
        if !next {
          break;
        }
        index := link;
      }
    }

    /** Writing through the chain fills its buffers in order, until data or room runs out. */
    method WriteChain(head: word, data: seq<byte>, ghost bufs: seq<Area>) returns (written: nat)
      requires layout.Table().End() <= ram.Length && ChainIs(ram[..], layout, head, bufs)
      requires AllApart(bufs, layout.Table())
      modifies ram
      ensures InBounds(bufs, ram.Length) && ram[..] == Scatter(old(ram[..]), bufs, data)
      ensures written == Min(|data|, Capacity(bufs))
    {
      hide Buffer, HasNext, Next, ChainIs, Scatter, Capacity, AllApart, Entry, InSlot, EntryAdded, Splice;
      ChainInBounds(ram[..], layout, head, bufs);
      ghost var m := ram[..];
      ghost var rest := bufs;
      written := 0;
      var index: nat := head;
      while written < |data|
        invariant 0 <= written <= |data| && InBounds(rest, |m|) && AllApart(rest, layout.Table())
        invariant written < |data| ==> ChainIs(ram[..], layout, index, rest)
        invariant Scatter(ram[..], rest, data[written..]) == Scatter(m, bufs, data)
        invariant written + Min(|data| - written, Capacity(rest)) == Min(|data|, Capacity(bufs))
        decreases |rest|
      {
        ReadStep(ram[..], layout, index, rest);
        var addr, length, next, link := Descriptor(index);
        ghost var c := ram[..];
        var k := Min(length, |data| - written);
        Poke(addr, data[written..written + k]);
        assert data[written..][..k] == data[written..written + k];
        assert data[written..][k..] == data[written + k..];
        WriteStep(c, ram[..], layout, index, rest, data[written..], k);
        written := written + k;
        rest := rest[1..];
        if !next || written >= |data| {
          break;
        }
        index := link;
      }
      WriteEnd(ram[..], rest, data[written..]);
    }

    /** self.ram[addr:addr + len(chunk)] = chunk */
    method Poke(addr: nat, chunk: seq<byte>)
      requires addr + |chunk| <= ram.Length
      modifies ram
      ensures ram[..] == Splice(old(ram[..]), addr, chunk)
    {
      for i := 0 to |chunk|
        invariant forall j :: 0 <= j < ram.Length ==>
                    ram[j] == if addr <= j < addr + i then chunk[j - addr] else old(ram[j])
      {
        ram[addr + i] := chunk[i];
      }
    }

    method Complete(head: word, length: nat)
      requires layout.num > 0 && layout.UsedArea().End() <= ram.Length
      modifies ram
      ensures ram[..] == Completed(old(ram[..]), layout, Done(head, Wrap(length)))
      ensures layout.num > 0 && EntryAdded(old(ram[..]), ram[..], layout, head, length)
    {
      hide WordAt, Store, EntryAdded;
      CompletedRecords(ram[..], layout, head, length);
      var usedIdx := Read32(layout.used + 4);
      var slot := layout.used + 8 + Slot(usedIdx, layout.num) * 8;
      Write32(slot, head);
      Write32(slot + 4, Wrap(length));
      Write32(layout.used + 4, Wrap((usedIdx as int) + 1));
    }
  }

  /** The table entry at a byte address: two words of address, then length, flags and link. */
  ghost predicate Entry(m: seq<byte>, at: nat, addr: word, length: word, next: bool, link: word)
    requires at + 20 <= |m|
  {
    && addr == WordAt(m, at) && length == WordAt(m, at + 8)
    && (next <==> WordAt(m, at + 12) % 2 == 1) && link == WordAt(m, at + 16)
  }

  /** The word that a counter names among the n words from an address on. */
  ghost predicate InSlot(m: seq<byte>, at: nat, n: nat, counter: nat, w: word)
    requires n > 0 && at + 4 * n <= |m|
  {
    assert counter % n < n;
    w == WordAt(m, at + 4 * (counter % n))
  }

  /** The used ring entry of the index is the head and the byte count, and the index, four bytes
      into the ring, is one higher. */
  ghost predicate EntryAdded(m: seq<byte>, n: seq<byte>, q: Layout, head: word, length: nat)
    requires q.num > 0 && q.UsedArea().End() <= |m|
  {
    var idx := WordAt(m, q.used + 4);
    var entry := q.used + 8 + 8 * (idx % q.num);
    && |n| == |m| && entry + 8 <= |m|
    && WordAt(n, entry) == head && WordAt(n, entry + 4) == length % 0x1_0000_0000
    && WordAt(n, q.used + 4) == ((idx as int) + 1) % 0x1_0000_0000
    && forall i :: 0 <= i < |m| && !(entry <= i < entry + 8) && !(q.used + 4 <= i < q.used + 8) ==> n[i] == m[i]
  }

  lemma CompletedRecords(m: seq<byte>, q: Layout, head: word, length: nat)
    requires q.num > 0 && q.UsedArea().End() <= |m|
    ensures EntryAdded(m, Completed(m, q, Done(head, Wrap(length))), q, head, length)
  {
    hide WordAt, Store;
    var idx := WordAt(m, q.used + 4);
    var entry := q.used + 8 + 8 * (idx % q.num);
    assert idx % q.num < q.num;
    var m1 := Store(m, entry, head);
    var m2 := Store(m1, entry + 4, Wrap(length));
    StoreLoad(m, entry, head);
    StoreLoad(m1, entry + 4, Wrap(length));
    StoreLoad(m2, q.used + 4, Wrap((idx as int) + 1));
    StoreElsewhere(m1, entry + 4, Wrap(length), entry);
    StoreElsewhere(m2, q.used + 4, Wrap((idx as int) + 1), entry);
    StoreElsewhere(m2, q.used + 4, Wrap((idx as int) + 1), entry + 4);
  }

  /** One buffer of a chain read: what is left to read is the rest of the chain. */
  lemma ReadStep(m: seq<byte>, q: Layout, index: nat, rest: seq<Area>)
    requires q.Table().End() <= |m| && ChainIs(m, q, index, rest) && InBounds(rest, |m|)
    ensures index < q.num && rest != [] && Buffer(m, q, index) == rest[0] && rest[0].End() <= |m|
    ensures InBounds(rest[1..], |m|) && Gather(m, rest) == m[rest[0].at..rest[0].End()] + Gather(m, rest[1..])
    ensures if HasNext(m, q, index) then ChainIs(m, q, Next(m, q, index), rest[1..])
            else rest[1..] == [] && Gather(m, rest[1..]) == []
  {
    hide Buffer, HasNext, Next;
    assert rest[0] in rest;
  }

  lemma WriteEnd(m: seq<byte>, rest: seq<Area>, data: seq<byte>)
    requires InBounds(rest, |m|) && (rest == [] || data == [])
    ensures Scatter(m, rest, data) == m && Min(|data|, Capacity(rest)) == 0
  {
  }

  /** One buffer of a chain written: what is left to do is the rest of the chain. */
  lemma WriteStep(c: seq<byte>, n: seq<byte>, q: Layout, index: nat, rest: seq<Area>, data: seq<byte>, k: nat)
    requires q.Table().End() <= |c| && ChainIs(c, q, index, rest) && AllApart(rest, q.Table()) && InBounds(rest, |c|)
    requires data != [] && k == Min(rest[0].len, |data|) && n == Splice(c, rest[0].at, data[..k])
    ensures Scatter(n, rest[1..], data[k..]) == Scatter(c, rest, data)
    ensures k + Min(|data| - k, Capacity(rest[1..])) == Min(|data|, Capacity(rest))
    ensures InBounds(rest[1..], |c|) && AllApart(rest[1..], q.Table())
    ensures if HasNext(c, q, index) then ChainIs(n, q, Next(c, q, index), rest[1..]) else rest[1..] == []
  {
    hide Buffer, HasNext, Next;
    assert rest[0] in rest;
    SpliceSame(c, rest[0], data[..k], q.Table());
    if HasNext(c, q, index) {
      ChainFrame(c, n, q, Next(c, q, index), rest[1..]);
    }
  }
}
