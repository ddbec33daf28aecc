/** What soc/zpu_virtio_console.c keeps in guest memory, and what holds of it between calls:
    two single-entry queues and one 64-byte receive buffer. */
module ConsoleProtocol {
  import opened Words
  import opened Memory
  import opened Ring
  import opened Chain
  import opened Drain

  const BUFFER_SIZE := 64
  const DESC_FLAG_WRITE := 2

  /** Addresses of the driver's static objects. */
  datatype Statics = Statics(txDesc: word, txAvail: word, txUsed: word,
                             rxDesc: word, rxAvail: word, rxUsed: word, rxBuf: word)
  {
    function Tx(): Layout { Layout(1, txDesc, txAvail, txUsed) }
    function Rx(): Layout { Layout(1, rxDesc, rxAvail, rxUsed) }
    function Buf(): Area { Area(rxBuf, BUFFER_SIZE) }
    function Parts(): seq<Area> {
      [Tx().Table(), Tx().AvailArea(), Tx().UsedArea(), Rx().Table(), Rx().AvailArea(), Rx().UsedArea(), Buf()]
    }
  }

  /** The linker keeps separate objects separate. */
  ghost predicate Placed(s: Statics, size: nat) {
    Separate(s.Parts()) && InBounds(s.Parts(), size)
  }

  /** a is not in any part of queue q. */
  ghost predicate AwayFrom(q: Layout, a: Area) {
    Apart(q.Table(), a) && Apart(q.AvailArea(), a) && Apart(q.UsedArea(), a)
  }

  lemma PlacedApart(s: Statics, size: nat, i: nat, j: nat)
    requires Placed(s, size) && i < j < 7
    ensures Apart(s.Parts()[i], s.Parts()[j])
  {
  }

  lemma PlacedSound(s: Statics, size: nat)
    requires Placed(s, size)
    ensures Sound(s.Tx(), size) && Sound(s.Rx(), size)
    ensures AwayFrom(s.Rx(), s.Buf()) && s.Buf().End() <= size
  {
    hide Separate, Apart;
    var p := s.Parts();
    assert p[0] in p && p[1] in p && p[2] in p && p[3] in p && p[4] in p && p[5] in p && p[6] in p;
    PlacedApart(s, size, 0, 1);
    PlacedApart(s, size, 0, 2);
    PlacedApart(s, size, 1, 2);
    PlacedApart(s, size, 3, 4);
    PlacedApart(s, size, 3, 5);
    PlacedApart(s, size, 4, 5);
    PlacedApart(s, size, 3, 6);
    PlacedApart(s, size, 4, 6);
    PlacedApart(s, size, 5, 6);
  }

  /** The two queues are apart: no part of one overlaps a part of the other. */
  lemma QueuesApart(s: Statics, size: nat)
    requires Placed(s, size)
    ensures AwayFrom(s.Tx(), s.Rx().Table()) && AwayFrom(s.Tx(), s.Rx().AvailArea())
            && AwayFrom(s.Tx(), s.Rx().UsedArea())
    ensures AwayFrom(s.Tx(), s.Buf())
  {
    hide Separate, Apart;
    forall i, j | 0 <= i < 3 <= j < 7
      ensures Apart(s.Parts()[i], s.Parts()[j])
    {
      PlacedApart(s, size, i, j);
    }
    assert Apart(s.Parts()[0], s.Parts()[3]) && Apart(s.Parts()[0], s.Parts()[4]) && Apart(s.Parts()[0], s.Parts()[5]);
    assert Apart(s.Parts()[1], s.Parts()[3]) && Apart(s.Parts()[1], s.Parts()[4]) && Apart(s.Parts()[1], s.Parts()[5]);
    assert Apart(s.Parts()[2], s.Parts()[3]) && Apart(s.Parts()[2], s.Parts()[4]) && Apart(s.Parts()[2], s.Parts()[5]);
    assert Apart(s.Parts()[0], s.Parts()[6]) && Apart(s.Parts()[1], s.Parts()[6]) && Apart(s.Parts()[2], s.Parts()[6]);
  }

  // Filling in the one descriptor.

  /** desc.addr, addr_hi, len, flags and next, in the order the driver stores them. */
  function Described(m: seq<byte>, desc: nat, addr: word, len: word, flags: word): (n: seq<byte>)
    requires desc + 20 <= |m|
    ensures |n| == |m|
  {
    Store(Store(Store(Store(Store(m, desc, addr), desc + 4, 0), desc + 8, len), desc + 12, flags), desc + 16, 0)
  }

  lemma DescribedReads(m: seq<byte>, q: Layout, addr: word, len: word, flags: word)
    requires q.num == 1 && q.Table().End() <= |m|
    ensures var n := Described(m, q.desc, addr, len, flags);
            && Only(m, n, q.Table()) && Buffer(n, q, 0) == Area(addr, len) && HasNext(n, q, 0) == (flags % 2 == 1)
  {
    hide WordAt, Store;
    var d := q.desc;
    var m1 := Store(m, d, addr);
    var m2 := Store(m1, d + 4, 0);
    var m3 := Store(m2, d + 8, len);
    var m4 := Store(m3, d + 12, flags);
    StoreLoad(m, d, addr);
    StoreLoad(m1, d + 4, 0);
    StoreLoad(m2, d + 8, len);
    StoreLoad(m3, d + 12, flags);
    StoreLoad(m4, d + 16, 0);
    StoreElsewhere(m1, d + 4, 0, d);
    StoreElsewhere(m2, d + 8, len, d);
    StoreElsewhere(m3, d + 12, flags, d);
    StoreElsewhere(m4, d + 16, 0, d);
    StoreElsewhere(m3, d + 12, flags, d + 8);
    StoreElsewhere(m4, d + 16, 0, d + 8);
    StoreElsewhere(m4, d + 16, 0, d + 12);
  }

  /** What the driver writes to hand one buffer over: descriptor, ring slot, index. */
  function Handed(m: seq<byte>, q: Layout, addr: word, len: word, flags: word): (n: seq<byte>)
    requires Sound(q, |m|) && q.num == 1
    ensures |n| == |m|
  {
    Published(Described(m, q.desc, addr, len, flags), q, 0)
  }

  /** Handing over a buffer, when the queue is idle, publishes exactly that buffer. */
  lemma HandedOver(m: seq<byte>, q: Layout, last: word, log: Log, addr: word, len: word, flags: word)
    requires Tracks(m, q, last, log) && q.num == 1 && |log.published| == |log.used|
    requires (addr as int) + len <= |m| && flags % 2 == 0
    ensures var n, log' := Handed(m, q, addr, len, flags), log.(published := log.published + [0]);
            && Tracks(n, q, last, log') && Pending(n, q, log', [[Area(addr, len)]])
            && forall a: Area :: AwayFrom(q, a) ==> Same(m, n, a)
  {
    hide Published, Described, AvailTracks, UsedTracks, Buffer, HasNext, Next;
    var m1 := Described(m, q.desc, addr, len, flags);
    var n, log' := Handed(m, q, addr, len, flags), log.(published := log.published + [0]);
    DescribedReads(m, q, addr, len, flags);
    OnlySame(m, m1, q.Table(), q.AvailArea());
    OnlySame(m, m1, q.Table(), q.UsedArea());
    TracksFrame(m, m1, q, last, log);
    PublishKeeps(m1, q, last, log, 0);
    OneChain(m1, n, q, Area(addr, len));
    assert log'.published[|log'.used|..] == [0];
    forall a: Area | AwayFrom(q, a)
      ensures Same(m, n, a)
    {
      OnlySame(m, m1, q.Table(), a);
      OnlySame(m1, n, q.AvailArea(), a);
    }
  }

  lemma OneChain(m: seq<byte>, n: seq<byte>, q: Layout, a: Area)
    requires Sound(q, |m|) && q.num == 1 && Buffer(m, q, 0) == a && !HasNext(m, q, 0) && a.End() <= |m|
    requires Only(m, n, q.AvailArea())
    ensures ChainIs(n, q, 0, [a])
  {
    hide Buffer, HasNext, Next;
    OnlySame(m, n, q.AvailArea(), q.Table());
    EntrySame(m, n, q, 0);
  }

  // The transmit side between calls.

  /** Every chain ever handed over was sent and seen. */
  ghost predicate TxIdle(m: seq<byte>, s: Statics, last: word, seen: word, log: Log) {
    Tracks(m, s.Tx(), last, log) && |log.published| == |log.used| && seen == Wrap(|log.used|)
  }

  // The receive side between calls.

  /** The buffer is with the device. */
  ghost predicate Waiting(m: seq<byte>, s: Statics, last: word, seen: word, log: Log) {
    && Tracks(m, s.Rx(), last, log) && |log.published| == |log.used| + 1 && seen == Wrap(|log.used|)
    && Pending(m, s.Rx(), log, [[s.Buf()]])
  }

  /** The device has filled `len` bytes of it; the driver has not looked yet. */
  ghost predicate Arrived(m: seq<byte>, s: Statics, last: word, seen: word, log: Log, len: nat) {
    && Tracks(m, s.Rx(), last, log) && |log.published| == |log.used| > 0 && seen == Wrap(|log.used| - 1)
    && log.used[|log.used| - 1].len == len && 1 <= len <= BUFFER_SIZE
  }

  /** The driver has seen every completion and is handing out the buffer. */
  ghost predicate Draining(m: seq<byte>, s: Statics, last: word, seen: word, log: Log) {
    Tracks(m, s.Rx(), last, log) && |log.published| == |log.used| && seen == Wrap(|log.used|)
  }

  /** Bytes from pos to len of the receive buffer. */
  function Held(m: seq<byte>, s: Statics, pos: nat, len: nat): seq<byte>
    requires pos <= len <= BUFFER_SIZE && s.Buf().End() <= |m|
  {
    m[s.rxBuf + pos..s.rxBuf + len]
  }

  /** The buffer is with the device, or full and unseen, or being handed out; `held` is what
      it still owes the caller. */
  ghost predicate RxOpen(m: seq<byte>, s: Statics, last: word, seen: word, pos: nat, len: nat, log: Log,
                         held: seq<byte>)
  {
    && pos <= len <= BUFFER_SIZE && s.Buf().End() <= |m|
    && if pos < len then Draining(m, s, last, seen, log) && held == Held(m, s, pos, len)
       else if held == [] then Waiting(m, s, last, seen, log)
       else Arrived(m, s, last, seen, log, |held|) && held == Held(m, s, 0, |held|)
  }

  /** Between driver calls, besides, the device keeps input back only while the buffer is not
      with it. */
  ghost predicate RxQuiet(m: seq<byte>, s: Statics, last: word, seen: word, pos: nat, len: nat, log: Log,
                          input: seq<byte>, held: seq<byte>)
  {
    RxOpen(m, s, last, seen, pos, len, log, held) && (held == [] ==> input == [])
  }

  /** The poll of rx_used.idx sees a completion exactly when one arrived. */
  lemma PollSees(m: seq<byte>, s: Statics, last: word, seen: word, pos: nat, log: Log, held: seq<byte>)
    requires RxOpen(m, s, last, seen, pos, pos, log, held)
    ensures Sound(s.Rx(), |m|) && (UsedIdx(m, s.Rx()) == seen <==> held == [])
    ensures held != [] ==> UsedEntry(m, s.Rx(), 0).len == |held|
    ensures held != [] ==> Draining(m, s, last, UsedIdx(m, s.Rx()), log)
  {
    hide WordAt, AvailTracks;
    if held != [] {
      var k: nat := |log.used| - 1;
      assert UsedEntry(m, s.Rx(), k) == log.used[k];
      assert Slot(k, 1) == Slot(0, 1);
    }
  }

  /** The driver owes nothing only when the buffer is drained and with the device. */
  lemma NothingHeld(m: seq<byte>, s: Statics, last: word, seen: word, pos: nat, len: nat, log: Log)
    requires RxOpen(m, s, last, seen, pos, len, log, [])
    ensures pos == len && Waiting(m, s, last, seen, log)
  {
  }

  /** Writes away from the receive side leave it as it is. */
  lemma RxFrame(m: seq<byte>, n: seq<byte>, s: Statics, last: word, seen: word, pos: nat, len: nat, log: Log,
                held: seq<byte>)
    requires RxOpen(m, s, last, seen, pos, len, log, held) && RxSame(m, n, s)
    ensures RxOpen(n, s, last, seen, pos, len, log, held)
  {
    hide Names, AvailTracks, UsedTracks;
    TracksFrame(m, n, s.Rx(), last, log);
    assert forall i, j :: 0 <= i <= j <= BUFFER_SIZE ==> Held(n, s, i, j) == Held(m, s, i, j);
    if pos == len && held == [] {
      NamesFrame(m, n, s.Rx(), log.published[|log.used|..], [[s.Buf()]]);
    }
  }

  /** The device's answer to a handed-over buffer, or to new input while it has the buffer:
      it fills it with the front of the input, or waits because there is none. */
  lemma DeviceAnswers(n: seq<byte>, s: Statics, last: word, seen: word, pos: nat, log: Log, input0: seq<byte>,
                      after: Log, pieces: seq<seq<byte>>, input: seq<byte>)
    requires s.Buf().End() <= |n| && AllInBounds([[s.Buf()]], |n|) && pos <= BUFFER_SIZE
    requires |log.published| == |log.used| + 1 && seen == Wrap(|log.used|)
    requires |pieces| <= 1 && Tracks(n, s.Rx(), last, after) && Pending(n, s.Rx(), after, [[s.Buf()]][|pieces|..])
    requires Received(n, [[s.Buf()]], pieces) && Flowing(log, input0, after, pieces, input)
    requires Greedy([[s.Buf()]], pieces, input) && (input == [] || |pieces| == 1)
    ensures RxQuiet(n, s, last, seen, pos, pos, after, input, Flatten(pieces)) && Flatten(pieces) + input == input0
  {
    hide Tracks, Pending, Received, Flowing, Greedy, RxQuiet, Flatten;
    if pieces == [] {
      StillWaiting(n, s, last, seen, pos, log, input0, after, input);
    } else {
      assert pieces == [pieces[0]];
      Fills(n, s, last, seen, pos, log, input0, after, pieces[0], input);
    }
  }

  lemma StillWaiting(n: seq<byte>, s: Statics, last: word, seen: word, pos: nat, log: Log, input0: seq<byte>,
                     after: Log, input: seq<byte>)
    requires s.Buf().End() <= |n| && pos <= BUFFER_SIZE
    requires |log.published| == |log.used| + 1 && seen == Wrap(|log.used|)
    requires Tracks(n, s.Rx(), last, after) && Pending(n, s.Rx(), after, [[s.Buf()]][0..])
    requires Flowing(log, input0, after, [], input) && input == []
    ensures RxQuiet(n, s, last, seen, pos, pos, after, input, Flatten([])) && Flatten([]) + input == input0
  {
    hide Tracks, Names;
    assert [[s.Buf()]][0..] == [[s.Buf()]];
  }

  lemma Fills(n: seq<byte>, s: Statics, last: word, seen: word, pos: nat, log: Log, input0: seq<byte>,
              after: Log, piece: seq<byte>, input: seq<byte>)
    requires s.Buf().End() <= |n| && AllInBounds([[s.Buf()]], |n|) && pos <= BUFFER_SIZE
    requires |log.published| == |log.used| + 1 && seen == Wrap(|log.used|)
    requires Tracks(n, s.Rx(), last, after) && Received(n, [[s.Buf()]], [piece])
    requires Flowing(log, input0, after, [piece], input) && Greedy([[s.Buf()]], [piece], input)
    ensures RxQuiet(n, s, last, seen, pos, pos, after, input, Flatten([piece])) && Flatten([piece]) + input == input0
  {
    hide Tracks, Gather;
    assert [[s.Buf()]][0] == [s.Buf()] && [piece][0] == piece;
    assert Capacity([s.Buf()]) == BUFFER_SIZE + Capacity([]);
    assert piece != [] && |piece| <= BUFFER_SIZE;
    OnePiece(n, s.Buf(), piece);
    assert Flatten([piece]) == piece + Flatten([]);
    assert after.used == log.used + [Done(log.published[|log.used|], Wrap(|piece|))];
  }

  lemma OnePiece(n: seq<byte>, b: Area, piece: seq<byte>)
    requires b.End() <= |n| && InBounds([b], |n|) && |piece| <= b.len && Gather(n, [b])[..|piece|] == piece
    ensures n[b.at..b.at + |piece|] == piece
  {
    assert Gather(n, [b]) == n[b.at..b.End()] + Gather(n, []);
    assert n[b.at..b.at + |piece|] == n[b.at..b.End()][..|piece|];
  }

  /** Everything the receive side depends on. */
  ghost predicate RxSame(m: seq<byte>, n: seq<byte>, s: Statics) {
    && Same(m, n, s.Rx().Table()) && Same(m, n, s.Rx().AvailArea()) && Same(m, n, s.Rx().UsedArea())
    && Same(m, n, s.Buf())
  }

  /** Handing over a transmit buffer: its bytes are what is pending, and the receive side is
      untouched. */
  lemma WriteHands(m: seq<byte>, s: Statics, last: word, seen: word, log: Log, data: word, len: word)
    requires Placed(s, |m|) && TxIdle(m, s, last, seen, log)
    requires (data as int) + len <= |m| && AwayFrom(s.Tx(), Area(data, len))
    ensures Sound(s.Tx(), |m|)
    ensures var n, log', pend := Handed(m, s.Tx(), data, len, 0), log.(published := log.published + [0]), [[Area(data, len)]];
            && Tracks(n, s.Tx(), last, log') && Pending(n, s.Tx(), log', pend) && ChainsApart(pend, s.Tx().UsedArea())
            && AllInBounds(pend, |n|) && Sent(n, pend) == m[data..(data as nat) + len] && RxSame(m, n, s)
  {
    hide Tracks, Pending, Handed, Apart;
    PlacedSound(s, |m|);
    QueuesApart(s, |m|);
    var n := Handed(m, s.Tx(), data, len, 0);
    HandedOver(m, s.Tx(), last, log, data, len, 0);
    assert Same(m, n, Area(data, len));
    OneSent(m, n, Area(data, len));
    UsedApart(s.Tx(), Area(data, len));
  }

  lemma UsedApart(q: Layout, a: Area)
    requires AwayFrom(q, a)
    ensures ChainsApart([[a]], q.UsedArea())
  {
  }

  lemma OneSent(m: seq<byte>, n: seq<byte>, a: Area)
    requires Same(m, n, a) && a.at + a.len <= |m|
    ensures AllInBounds([[a]], |n|) && Sent(n, [[a]]) == m[a.at..a.End()]
  {
    hide Gather, Sent, InBounds, AllInBounds;
    GatherOne(n, a);
    SentOne(n, [a]);
  }

  lemma GatherOne(n: seq<byte>, a: Area)
    requires a.at + a.len <= |n|
    ensures InBounds([a], |n|) && Gather(n, [a]) == n[a.at..a.End()]
  {
    hide InBounds, Gather;
    OneInBounds(a, |n|);
    GatherCons(n, [a]);
    NothingGathered(n);
    NothingBehind(n[a.at..a.End()], [a]);
  }

  lemma OneInBounds(a: Area, size: nat)
    requires a.at + a.len <= size
    ensures InBounds([a], size)
  {
  }

  lemma NothingBehind(s: seq<byte>, bufs: seq<Area>)
    requires |bufs| == 1
    ensures s + [] == s && bufs[1..] == []
  {
  }

  lemma NothingGathered(n: seq<byte>)
    ensures InBounds([], |n|) && Gather(n, []) == []
  {
  }

  lemma SentOne(n: seq<byte>, c: seq<Area>)
    requires InBounds(c, |n|)
    ensures AllInBounds([c], |n|) && Sent(n, [c]) == Gather(n, c)
  {
    hide Gather, InBounds;
    assert [c][1..] == [] && Sent(n, []) == [];
  }

  /** After the device has transmitted, the poll of tx_used.idx ends at once. */
  lemma WriteDone(n: seq<byte>, r: seq<byte>, s: Statics, last: word, seen: word, log: Log, after: Log)
    requires Placed(s, |n|) && Tracks(r, s.Tx(), last, after) && Pending(r, s.Tx(), after, [])
    requires |log.published| == |log.used| + 1 && after.published == log.published && seen == Wrap(|log.used|)
    requires Only(n, r, s.Tx().UsedArea())
    ensures s.Tx().UsedArea().End() <= |r| && UsedIdx(r, s.Tx()) != seen
    ensures TxIdle(r, s, last, UsedIdx(r, s.Tx()), after) && RxSame(n, r, s)
  {
    hide AvailTracks, Apart, Only;
    QueuesApart(s, |n|);
    OnlySame(n, r, s.Tx().UsedArea(), s.Rx().Table());
    OnlySame(n, r, s.Tx().UsedArea(), s.Rx().AvailArea());
    OnlySame(n, r, s.Tx().UsedArea(), s.Rx().UsedArea());
    OnlySame(n, r, s.Tx().UsedArea(), s.Buf());
  }

  /** Everything the transmit side depends on. */
  ghost predicate TxSame(m: seq<byte>, n: seq<byte>, s: Statics) {
    Same(m, n, s.Tx().AvailArea()) && Same(m, n, s.Tx().UsedArea())
  }

  lemma TxFrame(m: seq<byte>, n: seq<byte>, s: Statics, last: word, seen: word, log: Log)
    requires TxIdle(m, s, last, seen, log) && TxSame(m, n, s)
    ensures TxIdle(n, s, last, seen, log)
  {
    hide AvailTracks, UsedTracks, Same;
    TracksFrame(m, n, s.Tx(), last, log);
  }

  /** Handing the drained buffer back: the device may write it, and the transmit side is
      untouched. */
  lemma PostHands(m: seq<byte>, s: Statics, last: word, seen: word, log: Log)
    requires Placed(s, |m|) && Draining(m, s, last, seen, log)
    ensures Sound(s.Rx(), |m|)
    ensures var n, log', pend := Handed(m, s.Rx(), s.rxBuf, BUFFER_SIZE, DESC_FLAG_WRITE),
                                 log.(published := log.published + [0]), [[s.Buf()]];
            && Tracks(n, s.Rx(), last, log') && Pending(n, s.Rx(), log', pend) && Writable(s.Rx(), pend)
            && TxSame(m, n, s)
  {
    hide Tracks, Pending, Handed, Apart;
    PlacedSound(s, |m|);
    QueuesApart(s, |m|);
    var n := Handed(m, s.Rx(), s.rxBuf, BUFFER_SIZE, DESC_FLAG_WRITE);
    HandedOver(m, s.Rx(), last, log, s.rxBuf, BUFFER_SIZE, DESC_FLAG_WRITE);
    AwaySymmetric(s);
    BufferWritable(s.Rx(), s.Buf());
  }

  lemma BufferInside(s: Statics, size: nat)
    requires Placed(s, size)
    ensures s.Buf().End() <= size
  {
    assert s.Parts()[6] in s.Parts();
  }

  lemma AwaySymmetric(s: Statics)
    requires AwayFrom(s.Tx(), s.Rx().Table()) && AwayFrom(s.Tx(), s.Rx().AvailArea())
             && AwayFrom(s.Tx(), s.Rx().UsedArea())
    ensures AwayFrom(s.Rx(), s.Tx().Table()) && AwayFrom(s.Rx(), s.Tx().AvailArea())
            && AwayFrom(s.Rx(), s.Tx().UsedArea())
  {
  }

  lemma BufferWritable(q: Layout, b: Area)
    requires AwayFrom(q, b)
    ensures Writable(q, [[b]])
  {
  }

  /** The device's writes for reception stay in the buffer and the used ring. */
  lemma AnswerStays(n: seq<byte>, r: seq<byte>, s: Statics, k: nat)
    requires k <= 1 && Confined(n, r, [[s.Buf()]][..k], s.Rx().UsedArea())
    ensures forall a: Area :: OffReceive(s, a) ==> Same(n, r, a)
  {
    hide Same;
    assert forall c :: c in [[s.Buf()]][..k] ==> c == [s.Buf()];
    forall a: Area | OffReceive(s, a)
      ensures Same(n, r, a)
    {
      assert ChainsApart([[s.Buf()]][..k], a);
    }
  }

  /** The receive side after the device has answered an offered buffer, and what it left alone. */
  lemma Answered(m: seq<byte>, n: seq<byte>, s: Statics, last: word, last': word, seen: word, pos: nat, log: Log,
                 input0: seq<byte>, after: Log, pieces: seq<seq<byte>>, input: seq<byte>)
    requires Placed(s, |m|) && Waiting(m, s, last, seen, log) && pos <= BUFFER_SIZE
    requires |pieces| <= 1 && Tracks(n, s.Rx(), last', after) && Pending(n, s.Rx(), after, [[s.Buf()]][|pieces|..])
    requires AllInBounds([[s.Buf()]], |n|) && Received(n, [[s.Buf()]], pieces)
             && Flowing(log, input0, after, pieces, input)
    requires Greedy([[s.Buf()]], pieces, input) && (input == [] || |pieces| == 1)
    requires Confined(m, n, [[s.Buf()]][..|pieces|], s.Rx().UsedArea())
    ensures RxQuiet(n, s, last', seen, pos, pos, after, input, Flatten(pieces)) && Flatten(pieces) + input == input0
    ensures forall a: Area :: OffReceive(s, a) ==> Same(m, n, a)
  {
    AnswerStays(m, n, s, |pieces|);
    BufferInside(s, |m|);
    hide Tracks, Pending, Received, Flowing, Greedy, RxQuiet, Flatten, Placed, Same, OffReceive;
    DeviceAnswers(n, s, last', seen, pos, log, input0, after, pieces, input);
  }

  /** Input that arrives while nothing is pending stays with the device. */
  lemma InputWaits(m: seq<byte>, s: Statics, last: word, log: Log, input0: seq<byte>, last': word, after: Log,
                   pieces: seq<seq<byte>>, input: seq<byte>)
    requires Tracks(m, s.Rx(), last, log) && |log.published| == |log.used|
    requires Tracks(m, s.Rx(), last', after) && Flowing(log, input0, after, pieces, input)
    ensures pieces == [] && after == log && input == input0 && last' == last
  {
    hide AvailTracks, UsedTracks;
  }

  lemma NothingPending(m: seq<byte>, s: Statics, last: word, log: Log)
    requires Tracks(m, s.Rx(), last, log) && |log.published| == |log.used|
    ensures Pending(m, s.Rx(), log, []) && Writable(s.Rx(), [])
  {
    hide AvailTracks, UsedTracks;
  }

  /** While the driver holds bytes nothing is pending. */
  lemma HoldingIdle(m: seq<byte>, s: Statics, last: word, seen: word, pos: nat, len: nat, log: Log, held: seq<byte>)
    requires RxOpen(m, s, last, seen, pos, len, log, held) && held != []
    ensures Tracks(m, s.Rx(), last, log) && |log.published| == |log.used|
  {
    hide Tracks;
  }

  /** What the device may find pending. */
  function OnOffer(s: Statics, held: seq<byte>): seq<seq<Area>> { if held == [] then [[s.Buf()]] else [] }

  lemma MayLook(m: seq<byte>, s: Statics, last: word, seen: word, pos: nat, len: nat, log: Log, held: seq<byte>)
    requires Placed(s, |m|) && RxOpen(m, s, last, seen, pos, len, log, held)
    ensures Tracks(m, s.Rx(), last, log) && Pending(m, s.Rx(), log, OnOffer(s, held))
    ensures Writable(s.Rx(), OnOffer(s, held))
  {
    hide Tracks, Pending, Placed, Writable, Held;
    if held != [] {
      HoldingIdle(m, s, last, seen, pos, len, log, held);
      NothingPending(m, s, last, log);
    } else {
      NothingHeld(m, s, last, seen, pos, len, log);
      BufferOffered(m, s, last, seen, log);
    }
  }

  /** The receive side after the device has looked at its queue. */
  lemma Looked(m: seq<byte>, n: seq<byte>, s: Statics, last: word, last': word, seen: word, pos: nat, len: nat,
               log: Log,
               held: seq<byte>, input0: seq<byte>, after: Log, pieces: seq<seq<byte>>, input: seq<byte>)
    requires Placed(s, |m|) && RxOpen(m, s, last, seen, pos, len, log, held)
    requires var pend := OnOffer(s, held);
             && |pieces| <= |pend| && Tracks(n, s.Rx(), last', after) && Pending(n, s.Rx(), after, pend[|pieces|..])
             && AllInBounds(pend, |n|) && Received(n, pend, pieces) && Flowing(log, input0, after, pieces, input)
             && Greedy(pend, pieces, input) && (input == [] || |pieces| == |pend|)
             && Confined(m, n, pend[..|pieces|], s.Rx().UsedArea()) && (pieces == [] ==> n == m)
    ensures var held' := if held == [] then Flatten(pieces) else held;
            && RxQuiet(n, s, last', seen, pos, len, after, input, held') && held' + input == held + input0
            && (held != [] ==> n == m) && forall a: Area :: OffReceive(s, a) ==> Same(m, n, a)
  {
    hide Tracks, Pending, Received, Flowing, Greedy, Confined, Placed, OffReceive, Same;
    if held != [] {
      HoldingIdle(m, s, last, seen, pos, len, log, held);
      assert n == m;
      InputWaits(m, s, last, log, input0, last', after, pieces, input);
      SameAll(m);
    } else {
      NothingHeld(m, s, last, seen, pos, len, log);
      hide RxOpen, RxQuiet, Waiting;
      Answered(m, n, s, last, last', seen, pos, log, input0, after, pieces, input);
      assert [] + input0 == input0;
    }
  }

  // Single stores on the way to handing a buffer over.

  /** The word at `at` lies in area a. */
  ghost predicate WordIn(a: Area, at: nat) { a.at <= at && at + 4 <= a.End() }

  lemma WordApart(a: Area, at: nat, b: Area)
    requires WordIn(a, at) && Apart(a, b)
    ensures Apart(Area(at, 4), b)
  {
  }

  lemma StoreOnly(m: seq<byte>, at: nat, w: word)
    requires at + 4 <= |m|
    ensures Only(m, Store(m, at, w), Area(at, 4))
  {
  }

  /** The same store into two memories that agree on an area. */
  lemma StoreBoth(m: seq<byte>, n: seq<byte>, a: Area, at: nat, w: word)
    requires Same(m, n, a) && at + 4 <= |m|
    ensures Same(Store(m, at, w), Store(n, at, w), a)
  {
  }

  /** n is m with one word stored. */
  ghost predicate Stored(m: seq<byte>, n: seq<byte>, at: nat, w: word) { at + 4 <= |m| && n == Store(m, at, w) }

  /** A word of the transmit queue that the driver writes. */
  ghost predicate TxWord(s: Statics, at: nat) { WordIn(s.Tx().Table(), at) || WordIn(s.Tx().AvailArea(), at) }

  ghost predicate RxWord(s: Statics, at: nat) { WordIn(s.Rx().Table(), at) || at == s.rxAvail + 8 }

  lemma DriverWords(s: Statics)
    ensures TxWord(s, s.txDesc) && TxWord(s, s.txDesc + 4) && TxWord(s, s.txDesc + 8) && TxWord(s, s.txDesc + 12)
            && TxWord(s, s.txDesc + 16) && TxWord(s, s.txAvail + 8) && TxWord(s, s.txAvail + 4)
    ensures RxWord(s, s.rxDesc) && RxWord(s, s.rxDesc + 4) && RxWord(s, s.rxDesc + 8) && RxWord(s, s.rxDesc + 12)
            && RxWord(s, s.rxDesc + 16) && RxWord(s, s.rxAvail + 8)
  {
  }

  lemma TxWordInside(s: Statics, size: nat, at: nat)
    requires Placed(s, size) && TxWord(s, at)
    ensures at + 4 <= size
  {
    hide Apart;
    PlacedSound(s, size);
  }

  lemma TxWordFrame(m: seq<byte>, s: Statics, at: nat, w: word)
    requires Placed(s, |m|) && TxWord(s, at) && at + 4 <= |m|
    ensures RxSame(m, Store(m, at, w), s)
  {
    hide Apart, Only, Store, Same, Placed;
    QueuesApart(s, |m|);
    StoreOnly(m, at, w);
    var a := if WordIn(s.Tx().Table(), at) then s.Tx().Table() else s.Tx().AvailArea();
    WordElsewhere(m, a, at, w, s.Rx().Table());
    WordElsewhere(m, a, at, w, s.Rx().AvailArea());
    WordElsewhere(m, a, at, w, s.Rx().UsedArea());
    WordElsewhere(m, a, at, w, s.Buf());
  }

  lemma WordElsewhere(m: seq<byte>, a: Area, at: nat, w: word, b: Area)
    requires WordIn(a, at) && Apart(a, b) && at + 4 <= |m|
    ensures Same(m, Store(m, at, w), b)
  {
    WordApart(a, at, b);
    StoreOnly(m, at, w);
    OnlySame(m, Store(m, at, w), Area(at, 4), b);
  }

  lemma RxWordFrame(m: seq<byte>, s: Statics, at: nat, w: word)
    requires Placed(s, |m|) && RxWord(s, at)
    ensures at + 4 <= |m| && TxSame(m, Store(m, at, w), s)
  {
    hide Apart, Only, Store, Same;
    PlacedSound(s, |m|);
    QueuesApart(s, |m|);
    AwaySymmetric(s);
    hide Placed;
    var a := if WordIn(s.Rx().Table(), at) then s.Rx().Table() else s.Rx().AvailArea();
    WordElsewhere(m, a, at, w, s.Tx().AvailArea());
    WordElsewhere(m, a, at, w, s.Tx().UsedArea());
  }

  /** While nothing is in flight, stores into the descriptor and the ring slot publish nothing. */
  lemma RxWordKeeps(m: seq<byte>, s: Statics, last: word, log: Log, at: nat, w: word)
    requires Placed(s, |m|) && Tracks(m, s.Rx(), last, log) && |log.published| == |log.used|
    requires RxWord(s, at) && at + 4 <= |m|
    ensures Tracks(Store(m, at, w), s.Rx(), last, log)
  {
    hide Store, WordAt, Placed;
    var q, n := s.Rx(), Store(m, at, w);
    RxUsedSame(m, s, at, w);
    hide Apart, UsedEntry;
    UsedFrame(m, n, q, log);
    hide UsedTracks, Same;
    if at == s.rxAvail + 8 {
      StoreElsewhere(m, at, w, q.avail + 4);
    } else {
      RxAvailSame(m, s, at, w);
    }
  }

  lemma RxUsedSame(m: seq<byte>, s: Statics, at: nat, w: word)
    requires Sound(s.Rx(), |m|) && RxWord(s, at) && at + 4 <= |m|
    ensures Same(m, Store(m, at, w), s.Rx().UsedArea())
  {
    hide Apart, Store, Same;
    var a := if WordIn(s.Rx().Table(), at) then s.Rx().Table() else s.Rx().AvailArea();
    WordElsewhere(m, a, at, w, s.Rx().UsedArea());
  }

  lemma RxAvailSame(m: seq<byte>, s: Statics, at: nat, w: word)
    requires Sound(s.Rx(), |m|) && WordIn(s.Rx().Table(), at) && at + 4 <= |m|
    ensures AvailIdx(Store(m, at, w), s.Rx()) == AvailIdx(m, s.Rx())
  {
    hide Apart, Store, WordAt, Same;
    var q := s.Rx();
    WordElsewhere(m, q.Table(), at, w, q.AvailArea());
    WordSame(m, Store(m, at, w), q.AvailArea(), q.avail + 4);
  }

  /** Everything the transmit side depends on, the descriptor included. */
  ghost predicate TxAll(m: seq<byte>, n: seq<byte>, s: Statics) {
    Same(m, n, s.Tx().Table()) && TxSame(m, n, s)
  }

  /** What the device may write when input arrives. */
  ghost predicate OffReceive(s: Statics, a: Area) { Apart(s.Rx().UsedArea(), a) && Apart(s.Buf(), a) }

  lemma TxOffReceive(s: Statics, size: nat)
    requires Placed(s, size)
    ensures OffReceive(s, s.Tx().Table()) && OffReceive(s, s.Tx().AvailArea()) && OffReceive(s, s.Tx().UsedArea())
  {
    QueuesApart(s, size);
    hide Placed;
  }

  lemma TxAllTrans(m: seq<byte>, c: seq<byte>, n: seq<byte>, s: Statics)
    requires TxAll(m, c, s) && TxAll(c, n, s)
    ensures TxAll(m, n, s)
  {
  }

  lemma TxAllStore(m: seq<byte>, n: seq<byte>, s: Statics, at: nat, w: word)
    requires TxAll(m, n, s) && at + 4 <= |m|
    ensures |n| == |m| && TxAll(Store(m, at, w), Store(n, at, w), s)
  {
    StoreBoth(m, n, s.Tx().Table(), at, w);
    StoreBoth(m, n, s.Tx().AvailArea(), at, w);
    StoreBoth(m, n, s.Tx().UsedArea(), at, w);
  }

  /** A handed-over transmit buffer in a memory that agrees on the transmit side. */
  lemma WriteReady(n: seq<byte>, r: seq<byte>, s: Statics, last: word, log: Log, a: Area, calm: bool)
    requires TxAll(n, r, s) && Tracks(n, s.Tx(), last, log) && Pending(n, s.Tx(), log, [[a]])
    requires a.End() <= |n| && (calm ==> Same(n, r, a))
    ensures Tracks(r, s.Tx(), last, log) && Pending(r, s.Tx(), log, [[a]]) && AllInBounds([[a]], |r|)
    ensures |Sent(r, [[a]])| == a.len && (calm ==> Sent(r, [[a]]) == n[a.at..a.End()])
  {
    hide Names, AvailTracks, UsedTracks, Sent, Gather;
    TracksFrame(n, r, s.Tx(), last, log);
    NamesFrame(n, r, s.Tx(), log.published[|log.used|..], [[a]]);
    GatherOne(r, a);
    SentOne(r, [a]);
    if calm {
      OneSent(n, r, a);
    }
  }

  /** With nothing held the buffer is with the device, and there is no input it could use. */
  lemma BufferOffered(m: seq<byte>, s: Statics, last: word, seen: word, log: Log)
    requires Placed(s, |m|) && Waiting(m, s, last, seen, log)
    ensures Tracks(m, s.Rx(), last, log) && Pending(m, s.Rx(), log, [[s.Buf()]]) && Writable(s.Rx(), [[s.Buf()]])
  {
    hide Tracks, Pending;
    PlacedSound(s, |m|);
    BufferWritable(s.Rx(), s.Buf());
  }

  lemma QueueInside(s: Statics, size: nat)
    requires Placed(s, size)
    ensures s.Rx().UsedArea().End() <= size && s.Tx().UsedArea().End() <= size
  {
    PlacedSound(s, size);
  }

  lemma FirstEntry(m: seq<byte>, q: Layout)
    requires q.num == 1 && q.UsedArea().End() <= |m|
    ensures WordAt(m, q.used + 12) == UsedEntry(m, q, 0).len
  {
  }

  /** A byte of memory that belongs to none of the driver's statics. */
  ghost predicate Unused(s: Statics, at: nat, size: nat) {
    at < size && AwayFrom(s.Tx(), Area(at, 1)) && AwayFrom(s.Rx(), Area(at, 1)) && Apart(s.Buf(), Area(at, 1))
  }

  lemma SlotWritten(m: seq<byte>, n: seq<byte>, s: Statics, at: nat)
    requires Unused(s, at, |m|) && |n| == |m| && n == m[at := n[at]]
    ensures TxSame(m, n, s) && RxSame(m, n, s)
  {
    var a := Area(at, 1);
    assert Only(m, n, a);
    hide Only;
    OnlySame(m, n, a, s.Tx().AvailArea());
    OnlySame(m, n, a, s.Tx().UsedArea());
    OnlySame(m, n, a, s.Rx().Table());
    OnlySame(m, n, a, s.Rx().AvailArea());
    OnlySame(m, n, a, s.Rx().UsedArea());
    OnlySame(m, n, a, s.Buf());
  }

  /** The zero-initialised rings of a program that has just started. */
  ghost predicate Fresh(m: seq<byte>, s: Statics) {
    && s.Tx().AvailArea().End() <= |m| && AvailIdx(m, s.Tx()) == 0
    && s.Tx().UsedArea().End() <= |m| && UsedIdx(m, s.Tx()) == 0
    && s.Rx().AvailArea().End() <= |m| && AvailIdx(m, s.Rx()) == 0
    && s.Rx().UsedArea().End() <= |m| && UsedIdx(m, s.Rx()) == 0
  }

  lemma FreshIdle(m: seq<byte>, s: Statics)
    requires Placed(s, |m|) && Fresh(m, s)
    ensures TxIdle(m, s, 0, 0, Log([], [])) && Draining(m, s, 0, 0, Log([], []))
  {
    hide AvailIdx, UsedIdx;
    PlacedSound(s, |m|);
  }

  lemma SameAll(m: seq<byte>)
    ensures forall a: Area :: Same(m, m, a)
  {
  }

  lemma SameTrans(m: seq<byte>, c: seq<byte>, n: seq<byte>, a: Area)
    requires Same(m, c, a) && Same(c, n, a)
    ensures Same(m, n, a)
  {
  }

  lemma TxAllSelf(m: seq<byte>, s: Statics, a: Area)
    ensures TxAll(m, m, s) && Same(m, m, a)
  {
  }

  lemma TxAllOff(m: seq<byte>, n: seq<byte>, s: Statics)
    requires forall a: Area :: OffReceive(s, a) ==> Same(m, n, a)
    requires OffReceive(s, s.Tx().Table()) && OffReceive(s, s.Tx().AvailArea()) && OffReceive(s, s.Tx().UsedArea())
    ensures TxAll(m, n, s)
  {
    hide OffReceive, Same;
  }

  lemma SentIs(n: seq<byte>, a: Area)
    requires a.End() <= |n|
    ensures AllInBounds([[a]], |n|) && Sent(n, [[a]]) == n[a.at..a.End()]
  {
    hide Sent, Gather, InBounds, AllInBounds;
    GatherOne(n, a);
    SentOne(n, [a]);
  }

  lemma UnusedOff(s: Statics, at: nat, size: nat)
    requires Unused(s, at, size)
    ensures OffReceive(s, Area(at, 1)) && AwayFrom(s.Tx(), Area(at, 1))
  {
  }

  lemma SlotStays(m: seq<byte>, n: seq<byte>, at: nat)
    requires at < |m| && Same(m, n, Area(at, 1))
    ensures at < |n| && n[at] == m[at]
  {
  }

  /** The full buffer, once its completion has been seen. */
  lemma ArrivedShape(m: seq<byte>, s: Statics, last: word, seen: word, pos: nat, log: Log, held: seq<byte>)
    requires RxOpen(m, s, last, seen, pos, pos, log, held) && held != []
    ensures 1 <= |held| <= BUFFER_SIZE && s.Buf().End() <= |m| && held == Held(m, s, 0, |held|)
    ensures Tracks(m, s.Rx(), last, log) && |log.published| == |log.used|
  {
    hide Tracks;
  }

  /** The five stores fill in the descriptor. */
  lemma DescribedSteps(m: seq<byte>, d: nat, addr: word, len: word, flags: word,
                       n1: seq<byte>, n2: seq<byte>, n3: seq<byte>, n4: seq<byte>, n5: seq<byte>)
    requires Stored(m, n1, d, addr) && Stored(n1, n2, d + 4, 0) && Stored(n2, n3, d + 8, len)
    requires Stored(n3, n4, d + 12, flags) && Stored(n4, n5, d + 16, 0)
    ensures DescribedAs(m, n5, d, addr, len, flags)
  {
    hide Store;
  }

  ghost predicate DescribedAs(m: seq<byte>, n: seq<byte>, d: nat, addr: word, len: word, flags: word) {
    d + 20 <= |m| && n == Described(m, d, addr, len, flags)
  }

  /** The driver's two stores publish head 0 in a ring of one slot. */
  lemma PublishedSteps(m: seq<byte>, q: Layout, n: seq<byte>, idx: word, r: seq<byte>)
    requires q.num == 1 && Sound(q, |m|)
    requires Stored(m, n, q.avail + 8, 0) && q.AvailArea().End() <= |n| && idx == AvailIdx(n, q)
    requires Stored(n, r, q.avail + 4, Wrap(idx + 1))
    ensures PublishedAs(m, r, q)
  {
    hide Store, WordAt;
    StoreElsewhere(m, q.avail + 8, 0, q.avail + 4);
    assert Slot(AvailIdx(m, q), 1) == 0;
  }

  ghost predicate PublishedAs(m: seq<byte>, n: seq<byte>, q: Layout) {
    q.num > 0 && q.AvailArea().End() <= |m| && n == Published(m, q, 0)
  }

  lemma HandedSteps(m: seq<byte>, c: seq<byte>, n: seq<byte>, q: Layout, addr: word, len: word, flags: word)
    requires q.num == 1 && Sound(q, |m|) && DescribedAs(m, c, q.desc, addr, len, flags) && PublishedAs(c, n, q)
    ensures n == Handed(m, q, addr, len, flags)
  {
    hide Described, Published;
  }
}
