/** What the console's two drain loops do to a queue, one chain at a time. */
module Drain {
  import opened Words
  import opened Ring
  import opened Chain

  /** These heads start chains that name these buffers. */
  ghost predicate Names(m: seq<byte>, q: Layout, heads: seq<word>, pend: seq<seq<Area>>)
    requires q.Table().End() <= |m|
  {
    |heads| == |pend| && forall i: nat :: i < |pend| ==> ChainIs(m, q, heads[i], pend[i])
  }

  /** The published chains that are not yet consumed name these buffers. */
  ghost predicate Pending(m: seq<byte>, q: Layout, log: Log, pend: seq<seq<Area>>)
    requires q.Table().End() <= |m|
  {
    |log.used| <= |log.published| && Names(m, q, log.published[|log.used|..], pend)
  }

  ghost predicate AllInBounds(pend: seq<seq<Area>>, size: nat) {
    forall c :: c in pend ==> InBounds(c, size)
  }

  lemma PendingInBounds(m: seq<byte>, q: Layout, log: Log, pend: seq<seq<Area>>)
    requires q.Table().End() <= |m| && Pending(m, q, log, pend)
    ensures AllInBounds(pend, |m|)
  {
    forall c | c in pend
      ensures InBounds(c, |m|)
    {
      var i: nat :| i < |pend| && pend[i] == c;
      ChainInBounds(m, q, log.published[|log.used|..][i], c);
    }
  }

  lemma NamesFrame(m: seq<byte>, n: seq<byte>, q: Layout, heads: seq<word>, pend: seq<seq<Area>>)
    requires q.Table().End() <= |m| && Names(m, q, heads, pend) && Same(m, n, q.Table())
    ensures Names(n, q, heads, pend) && (pend != [] ==> Names(n, q, heads[1..], pend[1..]))
  {
    hide ChainIs, Same;
    SameLength(m, n, q.Table());
    forall i: nat | i < |pend|
      ensures ChainIs(n, q, heads[i], pend[i])
    {
      ChainFrame(m, n, q, heads[i], pend[i]);
    }
  }

  lemma SameLength(m: seq<byte>, n: seq<byte>, a: Area)
    requires Same(m, n, a)
    ensures |m| == |n|
  {
  }

  /** The table unchanged, the first chain consumed. */
  lemma PendingRest(m: seq<byte>, n: seq<byte>, q: Layout, log: Log, d: Done, pend: seq<seq<Area>>)
    requires q.Table().End() <= |m| && Pending(m, q, log, pend) && pend != [] && Same(m, n, q.Table())
    ensures |n| == |m| && Pending(n, q, log.(used := log.used + [d]), pend[1..])
  {
    NamesFrame(m, n, q, log.published[|log.used|..], pend);
    hide Names;
    assert log.published[|log.used|..][1..] == log.published[|log.used| + 1..];
  }

  // Transmission.

  /** Everything these chains hold, in order. */
  function Sent(m: seq<byte>, pend: seq<seq<Area>>): (data: seq<byte>)
    requires AllInBounds(pend, |m|)
  {
    if pend == [] then [] else Gather(m, pend[0]) + Sent(m, pend[1..])
  }

  /** The used entries for chains transmitted whole. */
  function TxDone(heads: seq<word>, pend: seq<seq<Area>>): (r: seq<Done>)
    requires |heads| == |pend|
    ensures |r| == |pend|
    ensures forall i :: 0 <= i < |pend| ==> r[i].id == heads[i] && r[i].len == Capacity(pend[i]) % 0x1_0000_0000
  {
    if pend == [] then [] else [Done(heads[0], Wrap(Capacity(pend[0])))] + TxDone(heads[1..], pend[1..])
  }

  /** No buffer of these chains lies in a. */
  ghost predicate ChainsApart(pend: seq<seq<Area>>, a: Area) {
    forall c :: c in pend ==> AllApart(c, a)
  }

  lemma {:induction false} SentFrame(m: seq<byte>, n: seq<byte>, pend: seq<seq<Area>>, a: Area)
    requires AllInBounds(pend, |m|) && ChainsApart(pend, a) && Only(m, n, a)
    ensures Sent(n, pend) == Sent(m, pend)
    decreases |pend|
  {
    if pend != [] {
      assert pend[0] in pend;
      forall b | b in pend[0]
        ensures Same(m, n, b)
      {
        OnlySame(m, n, a, b);
      }
      GatherFrame(m, n, pend[0]);
      SentFrame(m, n, pend[1..], a);
    }
  }

  /** Transmitting the oldest chain: it is completed with its full length, and the chains
      behind it are still pending with the same contents. */
  lemma TxStep(m: seq<byte>, q: Layout, last: word, log: Log, pend: seq<seq<Area>>)
    requires Tracks(m, q, last, log) && Pending(m, q, log, pend) && pend != [] && ChainsApart(pend, q.UsedArea())
    ensures var d := Done(log.published[|log.used|], Wrap(Capacity(pend[0])));
            var n, log' := Completed(m, q, d), log.(used := log.used + [d]);
            && Tracks(n, q, Wrap((last as int) + 1), log') && Pending(n, q, log', pend[1..]) && Only(m, n, q.UsedArea())
            && AllInBounds(pend, |m|) && Sent(m, pend) == Gather(m, pend[0]) + Sent(n, pend[1..])
  {
    hide ChainIs, Tracks, Completed, Gather, Only, Pending;
    assert Sound(q, |m|) && |log.used| < |log.published| by { SoundNow(m, q, last, log, pend); }
    var d := Done(log.published[|log.used|], Wrap(Capacity(pend[0])));
    CompleteKeeps(m, q, last, log, d.len);
    OnlySame(m, Completed(m, q, d), q.UsedArea(), q.Table());
    PendingInBounds(m, q, log, pend);
    PendingRest(m, Completed(m, q, d), q, log, d, pend);
    assert pend[0] in pend;
    SentFrame(m, Completed(m, q, d), pend[1..], q.UsedArea());
  }

  lemma SoundNow(m: seq<byte>, q: Layout, last: word, log: Log, pend: seq<seq<Area>>)
    requires Tracks(m, q, last, log) && Pending(m, q, log, pend)
    ensures Sound(q, |m|) && |log.published| == |log.used| + |pend|
  {
  }

  /** Part-way through the transmit loop: what was sent and completed, with what the pending
      chains still hold, makes up the whole. */
  ghost predicate Sending(m0: seq<byte>, log0: Log, pend0: seq<seq<Area>>,
                          m: seq<byte>, q: Layout, last: word, log: Log, pend: seq<seq<Area>>, sent: seq<byte>)
  {
    && Tracks(m, q, last, log) && Pending(m, q, log, pend) && ChainsApart(pend, q.UsedArea())
    && Only(m0, m, q.UsedArea()) && AllInBounds(pend0, |m0|) && AllInBounds(pend, |m|)
    && sent + Sent(m, pend) == Sent(m0, pend0)
    && log.published == log0.published && |log0.published| == |log0.used| + |pend0|
    && log.used + TxDone(log.published[|log.used|..], pend) == log0.used + TxDone(log0.published[|log0.used|..], pend0)
  }

  lemma SendingStarts(m: seq<byte>, q: Layout, last: word, log: Log, pend: seq<seq<Area>>)
    requires Tracks(m, q, last, log) && Pending(m, q, log, pend) && ChainsApart(pend, q.UsedArea())
    ensures Sending(m, log, pend, m, q, last, log, pend, [])
  {
    hide Tracks, ChainsApart, TxDone, Sent;
    SoundNow(m, q, last, log, pend);
    PendingInBounds(m, q, log, pend);
  }

  /** The device sees pending work exactly while chains remain, and its head is the first's. */
  lemma NextChain(m: seq<byte>, q: Layout, last: word, log: Log, pend: seq<seq<Area>>)
    requires Tracks(m, q, last, log) && Pending(m, q, log, pend)
    ensures Sound(q, |m|) && (last != AvailIdx(m, q) <==> pend != [])
    ensures pend != [] ==> |log.used| < |log.published| && ChainIs(m, q, log.published[|log.used|], pend[0])
    ensures pend != [] ==> AvailRing(m, q, Slot(last, q.num)) == log.published[|log.used|]
  {
    hide ChainIs, AvailTracks, UsedTracks, AvailIdx, AvailRing;
    PendingIsOldest(m, q, last, log);
  }

  lemma SendingOn(m0: seq<byte>, log0: Log, pend0: seq<seq<Area>>,
                  m: seq<byte>, q: Layout, last: word, log: Log, pend: seq<seq<Area>>, sent: seq<byte>)
    requires Sending(m0, log0, pend0, m, q, last, log, pend, sent) && pend != []
    ensures |log.used| < |log.published| && Sound(q, |m|) && InBounds(pend[0], |m|)
    ensures var d := Done(log.published[|log.used|], Wrap(Capacity(pend[0])));
            Sending(m0, log0, pend0, Completed(m, q, d), q, Wrap((last as int) + 1), log.(used := log.used + [d]),
                    pend[1..], sent + Gather(m, pend[0]))
  {
    hide Tracks, Completed, Gather, Sent, Pending, Only, AllInBounds, ChainsApart, TxDone, Capacity, InBounds, Sound;
    SoundNow(m, q, last, log, pend);
    TxStep(m, q, last, log, pend);
    RestInside(pend, |m|, q.UsedArea());
    var n := Completed(m, q, Done(log.published[|log.used|], Wrap(Capacity(pend[0]))));
    OnlyMore(m0, m, n, q.UsedArea());
    TxDoneRest(log, pend);
    assert sent + (Gather(m, pend[0]) + Sent(n, pend[1..])) == sent + Gather(m, pend[0]) + Sent(n, pend[1..]);
  }

  lemma RestInside(pend: seq<seq<Area>>, size: nat, a: Area)
    requires AllInBounds(pend, size) && ChainsApart(pend, a) && pend != []
    ensures InBounds(pend[0], size) && AllInBounds(pend[1..], size) && ChainsApart(pend[1..], a)
  {
    assert pend[0] in pend;
  }

  lemma OnlyMore(m: seq<byte>, c: seq<byte>, n: seq<byte>, a: Area)
    requires Only(m, c, a) && Only(c, n, a)
    ensures Only(m, n, a)
  {
  }

  lemma TxDoneRest(log: Log, pend: seq<seq<Area>>)
    requires pend != [] && |log.published| == |log.used| + |pend|
    ensures var d, heads := Done(log.published[|log.used|], Wrap(Capacity(pend[0]))), log.published[|log.used|..];
            log.used + [d] + TxDone(log.published[|log.used| + 1..], pend[1..]) == log.used + TxDone(heads, pend)
  {
    assert log.published[|log.used|..][1..] == log.published[|log.used| + 1..];
  }

  lemma SendingNow(m0: seq<byte>, log0: Log, pend0: seq<seq<Area>>,
                   m: seq<byte>, q: Layout, last: word, log: Log, pend: seq<seq<Area>>, sent: seq<byte>)
    requires Sending(m0, log0, pend0, m, q, last, log, pend, sent)
    ensures QueueBounds(q, |m|) && (last != AvailIdx(m, q) <==> pend != [])
    ensures pend != [] ==> |log.used| < |log.published| && ChainIs(m, q, log.published[|log.used|], pend[0])
    ensures pend != [] ==> AvailRing(m, q, Slot(last, q.num)) == log.published[|log.used|]
  {
    hide Tracks, Pending, Sent, TxDone;
    NextChain(m, q, last, log, pend);
  }

  ghost predicate QueueBounds(q: Layout, size: nat) {
    q.num > 0 && q.Table().End() <= size && q.AvailArea().End() <= size && q.UsedArea().End() <= size
  }

  lemma SendingEnds(m0: seq<byte>, log0: Log, pend0: seq<seq<Area>>,
                    m: seq<byte>, q: Layout, last: word, log: Log, sent: seq<byte>)
    requires Sending(m0, log0, pend0, m, q, last, log, [], sent)
    ensures AllInBounds(pend0, |m0|) && sent == Sent(m0, pend0) && log.published == log0.published
    ensures |log0.published| == |log0.used| + |pend0|
    ensures log.used == log0.used + TxDone(log0.published[|log0.used|..], pend0)
    ensures Sound(q, |m|) && Tracks(m, q, last, log) && Pending(m, q, log, []) && Only(m0, m, q.UsedArea())
  {
  }

  // Reception.

  /** Buffers a device may write: apart from the queue's own structures and from each other. */
  ghost predicate Writable(q: Layout, pend: seq<seq<Area>>) {
    && ChainsApart(pend, q.Table()) && ChainsApart(pend, q.AvailArea()) && ChainsApart(pend, q.UsedArea())
    && (forall c :: c in pend ==> Separate(c))
    && forall i, j :: 0 <= i < j < |pend| ==> forall a :: a in pend[j] ==> AllApart(pend[i], a)
  }

  /** Nothing changed outside these chains and a. */
  ghost predicate Confined(m: seq<byte>, n: seq<byte>, pend: seq<seq<Area>>, a: Area) {
    |m| == |n| && forall b: Area :: Apart(a, b) && ChainsApart(pend, b) ==> Same(m, n, b)
  }

  /** Piece j of what was delivered is what chain j now begins with. */
  ghost predicate Received(m: seq<byte>, pend: seq<seq<Area>>, pieces: seq<seq<byte>>)
    requires AllInBounds(pend, |m|)
  {
    && |pieces| <= |pend|
    && forall j: nat :: j < |pieces| ==>
         && |pieces[j]| <= Capacity(pend[j])
         && InBounds(pend[j], |m|) && Gather(m, pend[j])[..|pieces[j]|] == pieces[j]
  }

  function Flatten(pieces: seq<seq<byte>>): seq<byte> {
    if pieces == [] then [] else pieces[0] + Flatten(pieces[1..])
  }

  lemma {:induction false} FlattenSnoc(pieces: seq<seq<byte>>, piece: seq<byte>)
    ensures Flatten(pieces + [piece]) == Flatten(pieces) + piece
    decreases |pieces|
  {
    if pieces != [] {
      FlattenSnoc(pieces[1..], piece);
      assert (pieces + [piece])[1..] == pieces[1..] + [piece];
    } else {
      assert Flatten([piece]) == piece + Flatten([]);
    }
  }

  /** The used entries for these pieces. */
  function RxDone(heads: seq<word>, pieces: seq<seq<byte>>): (r: seq<Done>)
    requires |heads| == |pieces|
    ensures |r| == |heads|
  {
    seq(|heads|, i requires 0 <= i < |heads| => Done(heads[i], Wrap(|pieces[i]|)))
  }

  lemma ScatterConfined(m: seq<byte>, q: Layout, bufs: seq<Area>, input: seq<byte>, d: Done)
    requires Sound(q, |m|) && InBounds(bufs, |m|) && AllApart(bufs, q.UsedArea())
    ensures Confined(m, Completed(Scatter(m, bufs, input), q, d), [bufs], q.UsedArea())
  {
    hide Completed, Scatter, Apart;
    var n1 := Scatter(m, bufs, input);
    var n := Completed(n1, q, d);
    CompletedHere(n1, q, d);
    forall b: Area | Apart(q.UsedArea(), b) && ChainsApart([bufs], b)
      ensures Same(m, n, b)
    {
      assert bufs in [bufs];
      ScatterFrame(m, bufs, input, b);
      OnlySame(n1, n, q.UsedArea(), b);
    }
  }

  /** A write through the first chain leaves table and rings alone. */
  lemma RxScatter(m: seq<byte>, q: Layout, last: word, log: Log, pend: seq<seq<Area>>, input: seq<byte>)
    requires Tracks(m, q, last, log) && Pending(m, q, log, pend) && pend != [] && Writable(q, pend)
    ensures InBounds(pend[0], |m|)
    ensures var n := Scatter(m, pend[0], input);
            Tracks(n, q, last, log) && Pending(n, q, log, pend) && Same(m, n, q.Table())
  {
    hide AvailTracks, UsedTracks, ChainIs, Same, Scatter;
    PendingInBounds(m, q, log, pend);
    assert pend[0] in pend;
    var n := Scatter(m, pend[0], input);
    ScatterFrame(m, pend[0], input, q.Table());
    ScatterFrame(m, pend[0], input, q.AvailArea());
    ScatterFrame(m, pend[0], input, q.UsedArea());
    TracksFrame(m, n, q, last, log);
    NamesFrame(m, n, q, log.published[|log.used|..], pend);
  }

  /** Filling the oldest chain: it is completed with the count written, holds that much of
      the input, and the chains behind it are still pending. */
  lemma RxStep(m: seq<byte>, q: Layout, last: word, log: Log, pend: seq<seq<Area>>, input: seq<byte>)
    requires Tracks(m, q, last, log) && Pending(m, q, log, pend) && pend != [] && Writable(q, pend)
    ensures InBounds(pend[0], |m|) && |log.used| < |log.published|
    ensures var w := Min(|input|, Capacity(pend[0]));
            var d := Done(log.published[|log.used|], Wrap(w));
            var n, log' := Completed(Scatter(m, pend[0], input), q, d), log.(used := log.used + [d]);
            && Tracks(n, q, Wrap((last as int) + 1), log') && Pending(n, q, log', pend[1..]) && Writable(q, pend[1..])
            && Gather(n, pend[0])[..w] == input[..w] && Confined(m, n, [pend[0]], q.UsedArea())
  {
    hide Tracks, Completed, Gather, Only, Pending, Scatter, Confined, Capacity, Writable;
    RxScatter(m, q, last, log, pend, input);
    assert Sound(q, |m|) && |log.used| < |log.published| by { SoundNow(m, q, last, log, pend); }
    var w := Min(|input|, Capacity(pend[0]));
    var d := Done(log.published[|log.used|], Wrap(w));
    var n1 := Scatter(m, pend[0], input);
    var n := Completed(n1, q, d);
    CompleteKeeps(n1, q, last, log, d.len);
    OnlySame(n1, n, q.UsedArea(), q.Table());
    PendingRest(n1, n, q, log, d, pend);
    WritableRest(q, pend);
    ScatterConfined(m, q, pend[0], input, d);
    ScatterGather(m, pend[0], input);
    GatherOnly(n1, n, pend[0], q.UsedArea());
  }

  lemma GatherOnly(m: seq<byte>, n: seq<byte>, bufs: seq<Area>, a: Area)
    requires InBounds(bufs, |m|) && AllApart(bufs, a) && Only(m, n, a)
    ensures Gather(n, bufs) == Gather(m, bufs)
  {
    forall b | b in bufs
      ensures Same(m, n, b)
    {
      OnlySame(m, n, a, b);
    }
    GatherFrame(m, n, bufs);
  }

  lemma WritableRest(q: Layout, pend: seq<seq<Area>>)
    requires Writable(q, pend) && pend != []
    ensures Writable(q, pend[1..]) && AllApart(pend[0], q.UsedArea()) && Separate(pend[0])
  {
    hide AllApart, Separate;
    assert pend[0] in pend;
    var rest := pend[1..];
    forall i, j | 0 <= i < j < |rest|
      ensures forall a :: a in rest[j] ==> AllApart(rest[i], a)
    {
      assert rest[i] == pend[i + 1] && rest[j] == pend[j + 1];
    }
  }

  // The whole receive loop.

  /** Chain k filled after chains 0 to k-1: the earlier pieces still stand. */
  lemma ReceivedMore(m: seq<byte>, n: seq<byte>, q: Layout, pend: seq<seq<Area>>, pieces: seq<seq<byte>>,
                     piece: seq<byte>)
    requires AllInBounds(pend, |m|) && Received(m, pend, pieces) && |pieces| < |pend| && |n| == |m|
    requires Writable(q, pend) && Confined(m, n, [pend[|pieces|]], q.UsedArea())
    requires |piece| <= Capacity(pend[|pieces|]) && pend[|pieces|] in pend
    requires Gather(n, pend[|pieces|])[..|piece|] == piece
    ensures Received(n, pend, pieces + [piece])
  {
    hide Gather, Capacity, Writable, Confined;
    var k := |pieces|;
    forall j: nat | j < k
      ensures Gather(n, pend[j]) == Gather(m, pend[j])
    {
      assert pend[j] in pend;
      EarlierKept(m, n, q, pend, j, k);
    }
  }

  lemma EarlierKept(m: seq<byte>, n: seq<byte>, q: Layout, pend: seq<seq<Area>>, j: nat, k: nat)
    requires AllInBounds(pend, |m|) && j < k < |pend| && |n| == |m|
    requires Writable(q, pend) && Confined(m, n, [pend[k]], q.UsedArea())
    ensures InBounds(pend[j], |m|) && Gather(n, pend[j]) == Gather(m, pend[j])
  {
    hide Same;
    assert pend[j] in pend;
    forall b | b in pend[j]
      ensures Same(m, n, b)
    {
      assert Apart(b, q.UsedArea());
      assert ChainsApart([pend[k]], b);
    }
    GatherFrame(m, n, pend[j]);
  }

  lemma ConfinedMore(m: seq<byte>, c: seq<byte>, n: seq<byte>, pend: seq<seq<Area>>, k: nat, a: Area)
    requires k < |pend| && Confined(m, c, pend[..k], a) && Confined(c, n, [pend[k]], a)
    ensures Confined(m, n, pend[..k + 1], a)
  {
    hide AllApart, Apart;
    forall b: Area | Apart(a, b) && ChainsApart(pend[..k + 1], b)
      ensures Same(m, n, b)
    {
      assert pend[..k + 1] == pend[..k] + [pend[k]];
      assert Same(m, c, b) && Same(c, n, b);
    }
  }

  /** Part-way through the receive loop, in memory: the pieces fill the first chains. */
  ghost predicate Filling(m0: seq<byte>, pend0: seq<seq<Area>>,
                          m: seq<byte>, q: Layout, last: word, log: Log, pieces: seq<seq<byte>>)
  {
    && |pieces| <= |pend0| && Tracks(m, q, last, log) && Pending(m, q, log, pend0[|pieces|..]) && Writable(q, pend0)
    && AllInBounds(pend0, |m|) && Received(m, pend0, pieces) && Confined(m0, m, pend0[..|pieces|], q.UsedArea())
  }

  /** Part-way through the receive loop, in the stream: pieces and the rest make up the input,
      and each piece has its used entry. */
  ghost predicate Flowing(log0: Log, input0: seq<byte>, log: Log, pieces: seq<seq<byte>>, input: seq<byte>) {
    && Flatten(pieces) + input == input0 && log.published == log0.published
    && |log0.used| + |pieces| <= |log0.published|
    && log.used == log0.used + RxDone(log0.published[|log0.used|..|log0.used| + |pieces|], pieces)
  }

  lemma ReceivingStarts(m: seq<byte>, q: Layout, last: word, log: Log, pend: seq<seq<Area>>, input: seq<byte>)
    requires Tracks(m, q, last, log) && Pending(m, q, log, pend) && Writable(q, pend)
    ensures Filling(m, pend, m, q, last, log, []) && Flowing(log, input, log, [], input)
  {
    hide Tracks, Writable;
    SoundNow(m, q, last, log, pend);
    PendingInBounds(m, q, log, pend);
    assert pend[0..] == pend;
  }

  lemma WritableSuffix(q: Layout, pend: seq<seq<Area>>, k: nat)
    requires Writable(q, pend) && k <= |pend|
    ensures Writable(q, pend[k..])
    decreases k
  {
    hide Writable;
    if k > 0 {
      WritableSuffix(q, pend, k - 1);
      WritableRest(q, pend[k - 1..]);
      assert pend[k - 1..][1..] == pend[k..];
    } else {
      assert pend[0..] == pend;
    }
  }

  lemma FlowingOn(log0: Log, input0: seq<byte>, log: Log, pieces: seq<seq<byte>>, input: seq<byte>, w: nat)
    requires Flowing(log0, input0, log, pieces, input) && |log.used| < |log.published| && w <= |input|
    ensures Flowing(log0, input0, log.(used := log.used + [Done(log.published[|log.used|], Wrap(w))]),
                    pieces + [input[..w]], input[w..])
  {
    FlattenSnoc(pieces, input[..w]);
    hide Flatten;
    assert input == input[..w] + input[w..];
    assert Flatten(pieces) + input == Flatten(pieces) + input[..w] + input[w..];
  }

  lemma FillingOn(m0: seq<byte>, pend0: seq<seq<Area>>,
                  m: seq<byte>, q: Layout, last: word, log: Log, pieces: seq<seq<byte>>, input: seq<byte>)
    requires Filling(m0, pend0, m, q, last, log, pieces) && |pieces| < |pend0|
    ensures var bufs := pend0[|pieces|];
            && |log.used| < |log.published| && Sound(q, |m|) && InBounds(bufs, |m|)
            && var w := Min(|input|, Capacity(bufs));
               var d := Done(log.published[|log.used|], Wrap(w));
               Filling(m0, pend0, Completed(Scatter(m, bufs, input), q, d), q,
                       Wrap((last as int) + 1), log.(used := log.used + [d]), pieces + [input[..w]])
  {
    hide Tracks, Pending, Completed, Gather, Writable, Confined, Scatter, Capacity, Received, ChainIs;
    var k := |pieces|;
    var rest, bufs := pend0[k..], pend0[k];
    SoundNow(m, q, last, log, rest);
    WritableSuffix(q, pend0, k);
    RxStep(m, q, last, log, rest, input);
    var w := Min(|input|, Capacity(bufs));
    var d := Done(log.published[|log.used|], Wrap(w));
    var n := Completed(Scatter(m, bufs, input), q, d);
    assert rest[1..] == pend0[k + 1..] && bufs in pend0;
    ReceivedMore(m, n, q, pend0, pieces, input[..w]);
    ConfinedMore(m0, m, n, pend0, k, q.UsedArea());
  }

  lemma FillingNow(m0: seq<byte>, pend0: seq<seq<Area>>,
                   m: seq<byte>, q: Layout, last: word, log: Log, pieces: seq<seq<byte>>)
    requires Filling(m0, pend0, m, q, last, log, pieces)
    ensures |pieces| <= |pend0| && QueueBounds(q, |m|) && (last != AvailIdx(m, q) <==> |pieces| < |pend0|)
    ensures |pieces| < |pend0| ==> |log.used| < |log.published| && AllApart(pend0[|pieces|], q.Table())
    ensures |pieces| < |pend0| ==> ChainIs(m, q, log.published[|log.used|], pend0[|pieces|])
    ensures |pieces| < |pend0| ==> AvailRing(m, q, Slot(last, q.num)) == log.published[|log.used|]
  {
    hide Tracks, Pending, Received, Confined;
    NextChain(m, q, last, log, pend0[|pieces|..]);
    assert |pieces| < |pend0| ==> pend0[|pieces|] in pend0;
  }

  lemma FillingEnd(m0: seq<byte>, pend0: seq<seq<Area>>,
                   m: seq<byte>, q: Layout, last: word, log: Log, pieces: seq<seq<byte>>)
    requires Filling(m0, pend0, m, q, last, log, pieces)
    ensures |pieces| <= |pend0| && Tracks(m, q, last, log) && Pending(m, q, log, pend0[|pieces|..])
    ensures AllInBounds(pend0, |m|) && Received(m, pend0, pieces) && Confined(m0, m, pend0[..|pieces|], q.UsedArea())
  {
  }

  /** Every chain that was completed took all it could hold, except a last one that took the
      end of the input. */
  ghost predicate Greedy(pend: seq<seq<Area>>, pieces: seq<seq<byte>>, input: seq<byte>) {
    && |pieces| <= |pend|
    && forall j: nat :: j < |pieces| ==>
         && (|pieces[j]| == Capacity(pend[j]) || (j == |pieces| - 1 && input == []))
         && (pieces[j] == [] ==> Capacity(pend[j]) == 0)
  }

  lemma NoneGreedy(pend: seq<seq<Area>>, input: seq<byte>)
    ensures Greedy(pend, [], input)
  {
  }

  lemma GreedyOn(pend: seq<seq<Area>>, pieces: seq<seq<byte>>, input: seq<byte>, w: nat)
    requires Greedy(pend, pieces, input) && input != [] && |pieces| < |pend|
    requires w == Min(|input|, Capacity(pend[|pieces|]))
    ensures Greedy(pend, pieces + [input[..w]], input[w..])
  {
  }
}
