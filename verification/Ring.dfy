/** The rings of soc/virtio.py's Virtqueue: free-running 32-bit counters over `num` slots, and
    the unbounded counters they stand for. */
module Ring {
  import opened Words
  import opened Powers
  import opened Memory

  function Slot(c: nat, num: nat): (s: nat)
    requires num > 0
    ensures s < num
  {
    c % num
  }

  lemma SlotShift(a: nat, num: nat, w: nat)
    requires num > 0
    ensures Slot(a * num + w, num) == Slot(w, num)
  {
    var q, s := w / num, w % num;
    assert a * num + w == (a + q) * num + s;
    DivMod(a + q, s, num);
  }

  lemma WrapSlot(c: nat, num: nat)
    requires num > 0 && 0x1_0000_0000 % num == 0
    ensures Slot(Wrap(c), num) == Slot(c, num)
  {
    var laps, k := c / 0x1_0000_0000, 0x1_0000_0000 / num;
    assert c == laps * (k * num) + Wrap(c);
    assert laps * (k * num) == (laps * k) * num;
    SlotShift(laps * k, num, Wrap(c));
  }

  /** A wrapped counter keeps naming the right slot exactly when the ring size divides 2^32:
      a power of two does, and with three slots the first wrap already goes wrong. */
  lemma SlotsSurviveWrap(num: nat)
    requires num > 0
    ensures (forall c: nat :: Slot(Wrap(c), num) == Slot(c, num)) <==> 0x1_0000_0000 % num == 0
  {
    if 0x1_0000_0000 % num == 0 {
      forall c: nat
        ensures Slot(Wrap(c), num) == Slot(c, num)
      {
        WrapSlot(c, num);
      }
    } else {
      assert Slot(Wrap(0x1_0000_0000), num) != Slot(0x1_0000_0000, num) by {
        DivMod(0, 0, num);
      }
    }
  }

  lemma Multiple(a: nat, b: nat, n: nat)
    requires b > 0 && n == a * b
    ensures n % b == 0
  {
    DivMod(a, 0, b);
  }

  lemma PowerDivides(k: nat, num: nat)
    requires k <= 32 && num == Pow2(k)
    ensures 0x1_0000_0000 % num == 0
  {
    hide Pow2;
    Pow2Values();
    var n := 32;
    Pow2Add(n - k, k);
    Multiple(Pow2(n - k), num, Pow2(n));
  }

  lemma ThreeSlotsGoWrong()
    ensures Slot(Wrap(0x1_0000_0000), 3) != Slot(0x1_0000_0000, 3)
  {
  }

  /** Two wrapped counters differ exactly when fewer were consumed than published. */
  lemma WrapPending(used: nat, published: nat)
    requires used <= published < used + 0x1_0000_0000
    ensures Wrap(used) != Wrap(published) <==> used < published
  {
  }

  /** Entries less than a whole ring apart occupy different slots. */
  lemma SlotsDiffer(i: nat, j: nat, num: nat)
    requires num > 0 && i < j < i + num
    ensures Slot(i, num) != Slot(j, num)
  {
    if Slot(i, num) == Slot(j, num) {
      var d := j / num - i / num;
      assert j - i == d * num;
      if d >= 1 {
        MulLe(1, d, num);
      } else {
        MulLe(d, 0, num);
      }
    }
  }

  // Stretches of guest memory.

  datatype Area = Area(at: nat, len: nat) {
    function End(): nat { at + len }
  }

  ghost predicate Apart(a: Area, b: Area) { a.len == 0 || b.len == 0 || a.End() <= b.at || b.End() <= a.at }

  ghost predicate Same(m: seq<byte>, n: seq<byte>, a: Area) {
    |m| == |n| && forall i :: a.at <= i < a.End() && i < |m| ==> n[i] == m[i]
  }

  /** Nothing outside a differs. */
  ghost predicate Only(m: seq<byte>, n: seq<byte>, a: Area) {
    |m| == |n| && forall i :: 0 <= i < |m| && !(a.at <= i < a.End()) ==> n[i] == m[i]
  }

  lemma OnlySame(m: seq<byte>, n: seq<byte>, a: Area, b: Area)
    requires Only(m, n, a) && Apart(a, b)
    ensures Same(m, n, b)
  {
  }

  lemma WordSame(m: seq<byte>, n: seq<byte>, a: Area, at: nat)
    requires Same(m, n, a) && a.at <= at && at + 4 <= a.End() && at + 4 <= |m|
    ensures WordAt(n, at) == WordAt(m, at)
  {
  }

  // The queue.

  /** Where a queue of num entries keeps its table and rings. */
  datatype Layout = Layout(num: nat, desc: nat, avail: nat, used: nat) {
    function Table(): Area { Area(desc, 20 * num) }
    function AvailArea(): Area { Area(avail, 8 + 4 * num) }
    function UsedArea(): Area { Area(used, 8 + 8 * num) }
  }

  /** In bounds, apart, and with a ring size the protocol allows. */
  ghost predicate Sound(q: Layout, size: nat) {
    && 0 < q.num < 0x1_0000_0000 && 0x1_0000_0000 % q.num == 0
    && q.Table().End() <= size && q.AvailArea().End() <= size && q.UsedArea().End() <= size
    && Apart(q.Table(), q.UsedArea()) && Apart(q.AvailArea(), q.UsedArea()) && Apart(q.Table(), q.AvailArea())
  }

  function AvailIdx(m: seq<byte>, q: Layout): word
    requires q.AvailArea().End() <= |m|
  {
    WordAt(m, q.avail + 4)
  }

  /** avail_ring */
  function AvailRing(m: seq<byte>, q: Layout, c: nat): word
    requires q.num > 0 && q.AvailArea().End() <= |m|
  {
    WordAt(m, q.avail + 8 + Slot(c, q.num) * 4)
  }

  function UsedIdx(m: seq<byte>, q: Layout): word
    requires q.UsedArea().End() <= |m|
  {
    WordAt(m, q.used + 4)
  }

  /** A used ring entry: the chain's head and the bytes moved. */
  datatype Done = Done(id: word, len: word)

  function UsedEntry(m: seq<byte>, q: Layout, c: nat): Done
    requires q.num > 0 && q.UsedArea().End() <= |m|
  {
    var at := q.used + 8 + Slot(c, q.num) * 8;
    Done(WordAt(m, at), WordAt(m, at + 4))
  }

  /** complete: record a used entry, then advance the used index. */
  function Completed(m: seq<byte>, q: Layout, d: Done): (n: seq<byte>)
    requires q.num > 0 && q.UsedArea().End() <= |m|
    ensures |n| == |m|
  {
    var idx := UsedIdx(m, q);
    var at := q.used + 8 + Slot(idx, q.num) * 8;
    Store(Store(Store(m, at, d.id), at + 4, d.len), q.used + 4, Wrap(idx + 1))
  }

  /** What a driver writes to publish a chain: a ring slot, then the index. */
  function Published(m: seq<byte>, q: Layout, head: word): (n: seq<byte>)
    requires q.num > 0 && q.AvailArea().End() <= |m|
    ensures |n| == |m|
  {
    var idx := AvailIdx(m, q);
    Store(Store(m, q.avail + 8 + Slot(idx, q.num) * 4, head), q.avail + 4, Wrap(idx + 1))
  }

  // The unbounded queue it refines.

  /** Everything ever published and everything ever completed. */
  datatype Log = Log(published: seq<word>, used: seq<Done>)

  ghost predicate Bounded(q: Layout, log: Log) {
    |log.used| <= |log.published| <= |log.used| + q.num
  }

  ghost predicate AvailTracks(m: seq<byte>, q: Layout, log: Log)
    requires q.num > 0 && q.AvailArea().End() <= |m|
  {
    && AvailIdx(m, q) == Wrap(|log.published|)
    && forall i: nat :: |log.used| <= i < |log.published| ==> AvailRing(m, q, i) == log.published[i]
  }

  ghost predicate UsedTracks(m: seq<byte>, q: Layout, log: Log)
    requires q.num > 0 && q.UsedArea().End() <= |m|
  {
    && UsedIdx(m, q) == Wrap(|log.used|)
    && forall i: nat :: i < |log.used| <= i + q.num ==> UsedEntry(m, q, i) == log.used[i]
  }

  /** Memory and the device's private counter hold the log's live part. */
  ghost predicate Tracks(m: seq<byte>, q: Layout, last: word, log: Log) {
    Sound(q, |m|) && Bounded(q, log) && last == Wrap(|log.used|) && AvailTracks(m, q, log) && UsedTracks(m, q, log)
  }

  /** has_pending and next_pending: there is work exactly when the log says so, and it is the
      oldest unconsumed chain. */
  lemma PendingIsOldest(m: seq<byte>, q: Layout, last: word, log: Log)
    requires Tracks(m, q, last, log)
    ensures last != AvailIdx(m, q) <==> |log.used| < |log.published|
    ensures |log.used| < |log.published| ==> AvailRing(m, q, Slot(last, q.num)) == log.published[|log.used|]
  {
    WrapPending(|log.used|, |log.published|);
    WrapSlot(|log.used|, q.num);
    SlotShift(0, q.num, last);
    SlotTwice(last, q.num);
  }

  lemma SlotTwice(c: nat, num: nat)
    requires num > 0
    ensures Slot(Slot(c, num), num) == Slot(c, num)
  {
    DivMod(0, Slot(c, num), num);
  }

  lemma AvailFrame(m: seq<byte>, n: seq<byte>, q: Layout, log: Log)
    requires Sound(q, |m|) && AvailTracks(m, q, log) && Same(m, n, q.AvailArea())
    ensures AvailTracks(n, q, log)
  {
    forall c: nat
      ensures AvailRing(n, q, c) == AvailRing(m, q, c)
    {
      WordSame(m, n, q.AvailArea(), q.avail + 8 + Slot(c, q.num) * 4);
    }
  }

  lemma UsedFrame(m: seq<byte>, n: seq<byte>, q: Layout, log: Log)
    requires Sound(q, |m|) && UsedTracks(m, q, log) && Same(m, n, q.UsedArea())
    ensures UsedTracks(n, q, log)
  {
    forall c: nat
      ensures UsedEntry(n, q, c) == UsedEntry(m, q, c)
    {
      WordSame(m, n, q.UsedArea(), q.used + 8 + Slot(c, q.num) * 8);
      WordSame(m, n, q.UsedArea(), q.used + 12 + Slot(c, q.num) * 8);
    }
  }

  /** Writes elsewhere leave the queue alone. */
  lemma TracksFrame(m: seq<byte>, n: seq<byte>, q: Layout, last: word, log: Log)
    requires Tracks(m, q, last, log) && Same(m, n, q.AvailArea()) && Same(m, n, q.UsedArea())
    ensures Tracks(n, q, last, log)
  {
    hide AvailTracks, UsedTracks;
    AvailFrame(m, n, q, log);
    UsedFrame(m, n, q, log);
  }

  /** The words a completion leaves: the entry in its slot and the next index. */
  lemma CompletedHere(m: seq<byte>, q: Layout, d: Done)
    requires Sound(q, |m|)
    ensures Only(m, Completed(m, q, d), q.UsedArea())
    ensures UsedIdx(Completed(m, q, d), q) == Wrap(UsedIdx(m, q) + 1)
    ensures UsedEntry(Completed(m, q, d), q, UsedIdx(m, q)) == d
  {
    hide WordAt, Store;
    var idx: nat := UsedIdx(m, q);
    var at := q.used + 8 + Slot(idx, q.num) * 8;
    var m1 := Store(m, at, d.id);
    var m2 := Store(m1, at + 4, d.len);
    StoreLoad(m, at, d.id);
    StoreLoad(m1, at + 4, d.len);
    StoreLoad(m2, q.used + 4, Wrap(idx + 1));
    StoreElsewhere(m1, at + 4, d.len, at);
    StoreElsewhere(m2, q.used + 4, Wrap(idx + 1), at);
    StoreElsewhere(m2, q.used + 4, Wrap(idx + 1), at + 4);
  }

  /** Every other slot of the used ring keeps its entry. */
  lemma CompletedElsewhere(m: seq<byte>, q: Layout, d: Done, c: nat)
    requires Sound(q, |m|) && Slot(c, q.num) != Slot(UsedIdx(m, q), q.num)
    ensures UsedEntry(Completed(m, q, d), q, c) == UsedEntry(m, q, c)
  {
    hide WordAt, Store, Slot;
    var idx: nat := UsedIdx(m, q);
    var at, b := q.used + 8 + Slot(idx, q.num) * 8, q.used + 8 + Slot(c, q.num) * 8;
    var m1 := Store(m, at, d.id);
    var m2 := Store(m1, at + 4, d.len);
    StoreElsewhere(m, at, d.id, b);
    StoreElsewhere(m, at, d.id, b + 4);
    StoreElsewhere(m1, at + 4, d.len, b);
    StoreElsewhere(m1, at + 4, d.len, b + 4);
    StoreElsewhere(m2, q.used + 4, Wrap(idx + 1), b);
    StoreElsewhere(m2, q.used + 4, Wrap(idx + 1), b + 4);
  }

  lemma AvailShrinks(m: seq<byte>, q: Layout, log: Log, d: Done)
    requires Sound(q, |m|) && AvailTracks(m, q, log)
    ensures AvailTracks(m, q, log.(used := log.used + [d]))
  {
    hide AvailIdx, AvailRing;
  }

  lemma CompletedEntry(m: seq<byte>, q: Layout, log: Log, d: Done, i: nat)
    requires Sound(q, |m|) && UsedTracks(m, q, log) && i < |log.used| + 1 <= i + q.num
    ensures UsedEntry(Completed(m, q, d), q, i) == (log.used + [d])[i]
  {
    hide UsedEntry, UsedIdx, Completed, Slot;
    var u := |log.used|;
    WrapSlot(u, q.num);
    if i < u {
      SlotsDiffer(i, u, q.num);
      CompletedElsewhere(m, q, d, i);
    } else {
      CompletedHere(m, q, d);
      SameSlot(Completed(m, q, d), q, Wrap(u), u);
    }
  }

  lemma WrapNext(c: nat)
    ensures Wrap((Wrap(c) as int) + 1) == Wrap(c + 1)
  {
  }

  lemma UsedAppended(m: seq<byte>, q: Layout, log: Log, d: Done)
    requires Sound(q, |m|) && UsedTracks(m, q, log)
    ensures UsedTracks(Completed(m, q, d), q, log.(used := log.used + [d]))
  {
    hide UsedEntry, UsedIdx, Completed;
    CompletedHere(m, q, d);
    WrapNext(|log.used|);
    hide Wrap;
    forall i: nat | i < |log.used| + 1 <= i + q.num
      ensures UsedEntry(Completed(m, q, d), q, i) == (log.used + [d])[i]
    {
      CompletedEntry(m, q, log, d, i);
    }
  }

  /** Completing the oldest chain consumes exactly it. */
  lemma CompleteKeeps(m: seq<byte>, q: Layout, last: word, log: Log, len: word)
    requires Tracks(m, q, last, log) && |log.used| < |log.published|
    ensures var d := Done(log.published[|log.used|], len);
            Tracks(Completed(m, q, d), q, Wrap((last as int) + 1), log.(used := log.used + [d]))
    ensures Only(m, Completed(m, q, Done(log.published[|log.used|], len)), q.UsedArea())
  {
    hide UsedTracks, Completed, AvailTracks;
    var d := Done(log.published[|log.used|], len);
    CompletedHere(m, q, d);
    OnlySame(m, Completed(m, q, d), q.UsedArea(), q.AvailArea());
    AvailFrame(m, Completed(m, q, d), q, log);
    AvailShrinks(Completed(m, q, d), q, log, d);
    UsedAppended(m, q, log, d);
    WrapNext(|log.used|);
  }

  /** A wrapped counter reads the same entries. */
  lemma SameSlot(m: seq<byte>, q: Layout, w: word, c: nat)
    requires Sound(q, |m|) && w == Wrap(c)
    ensures UsedEntry(m, q, w) == UsedEntry(m, q, c) && AvailRing(m, q, w) == AvailRing(m, q, c)
  {
    hide WordAt;
    WrapSlot(c, q.num);
  }

  /** The words a publication leaves. */
  lemma PublishedHere(m: seq<byte>, q: Layout, head: word)
    requires Sound(q, |m|)
    ensures Only(m, Published(m, q, head), q.AvailArea())
    ensures AvailIdx(Published(m, q, head), q) == Wrap(AvailIdx(m, q) + 1)
    ensures AvailRing(Published(m, q, head), q, AvailIdx(m, q)) == head
  {
    hide WordAt, Store;
    var idx: nat := AvailIdx(m, q);
    var at := q.avail + 8 + Slot(idx, q.num) * 4;
    var m1 := Store(m, at, head);
    StoreLoad(m, at, head);
    StoreLoad(m1, q.avail + 4, Wrap(idx + 1));
    StoreElsewhere(m1, q.avail + 4, Wrap(idx + 1), at);
  }

  lemma PublishedElsewhere(m: seq<byte>, q: Layout, head: word, c: nat)
    requires Sound(q, |m|) && Slot(c, q.num) != Slot(AvailIdx(m, q), q.num)
    ensures AvailRing(Published(m, q, head), q, c) == AvailRing(m, q, c)
  {
    hide WordAt, Store, Slot;
    var idx: nat := AvailIdx(m, q);
    var at, b := q.avail + 8 + Slot(idx, q.num) * 4, q.avail + 8 + Slot(c, q.num) * 4;
    StoreElsewhere(m, at, head, b);
    StoreElsewhere(Store(m, at, head), q.avail + 4, Wrap(idx + 1), b);
  }

  lemma PublishedEntry(m: seq<byte>, q: Layout, log: Log, head: word, i: nat)
    requires Sound(q, |m|) && AvailTracks(m, q, log) && |log.published| < |log.used| + q.num
    requires |log.used| <= i <= |log.published|
    ensures AvailRing(Published(m, q, head), q, i) == (log.published + [head])[i]
  {
    hide AvailRing, AvailIdx, Published, Slot;
    var p := |log.published|;
    WrapSlot(p, q.num);
    if i < p {
      SlotsDiffer(i, p, q.num);
      PublishedElsewhere(m, q, head, i);
    } else {
      PublishedHere(m, q, head);
      SameSlot(Published(m, q, head), q, Wrap(p), p);
    }
  }

  lemma AvailAppended(m: seq<byte>, q: Layout, log: Log, head: word)
    requires Sound(q, |m|) && AvailTracks(m, q, log) && |log.published| < |log.used| + q.num
    ensures AvailTracks(Published(m, q, head), q, log.(published := log.published + [head]))
  {
    hide AvailRing, AvailIdx, Published;
    PublishedHere(m, q, head);
    WrapNext(|log.published|);
    hide Wrap;
    forall i: nat | |log.used| <= i < |log.published| + 1
      ensures AvailRing(Published(m, q, head), q, i) == (log.published + [head])[i]
    {
      PublishedEntry(m, q, log, head, i);
    }
  }

  /** Publishing one more chain adds exactly it, when there is room. */
  lemma PublishKeeps(m: seq<byte>, q: Layout, last: word, log: Log, head: word)
    requires Tracks(m, q, last, log) && |log.published| < |log.used| + q.num
    ensures Tracks(Published(m, q, head), q, last, log.(published := log.published + [head]))
    ensures Only(m, Published(m, q, head), q.AvailArea())
  {
    hide AvailTracks, Published, UsedIdx, UsedEntry;
    PublishedHere(m, q, head);
    OnlySame(m, Published(m, q, head), q.AvailArea(), q.UsedArea());
    UsedFrame(m, Published(m, q, head), q, log);
    AvailAppended(m, q, log, head);
  }
}
