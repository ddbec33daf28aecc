/** The console driver, soc/zpu_virtio_console.c, running against the device while input arrives
    between any two of its loads and stores: whatever is fed in comes out of getc, in order, and
    whatever is written goes out. */
module ConsoleDriver {
  import opened Words
  import opened Memory
  import opened Ring
  import opened Drain
  import opened VirtioConsole
  import opened ConsoleProtocol

  class Driver {
    const ram: array<byte>
    const console: Console
    const s: Statics
    /** the outside world: what arrives at each of the moments to come */
    var coming: seq<seq<byte>>
    var txUsedSeen: word
    var rxUsedSeen: word
    var rxPos: nat
    var rxLen: nat
    ghost var txLog: Log
    ghost var rxLog: Log
    /** what the receive buffer still owes the caller */
    ghost var held: seq<byte>
    /** everything that has arrived, what getc has returned of it, and everything that ever arrives */
    ghost var fed: seq<byte>
    ghost var got: seq<byte>
    ghost var world: seq<byte>

    constructor (ram: array<byte>, console: Console, s: Statics, coming: seq<seq<byte>>)
      ensures this.ram == ram && this.console == console && this.s == s && this.coming == coming
    {
      this.ram, this.console, this.s, this.coming := ram, console, s, coming;
    }

    ghost predicate Wired()
      reads console, if |console.queues| == 2 then {console.queues[0].vq, console.queues[1].vq} else {}
    {
      && console.Valid() && console.ram == ram && Placed(s, ram.Length) && DriverOk(console.status)
      && console.queues[TRANSMITQ].vq != null && console.queues[TRANSMITQ].vq.layout == s.Tx()
      && console.queues[RECEIVEQ].vq != null && console.queues[RECEIVEQ].vq.layout == s.Rx()
    }

    /** Nothing is lost or repeated: what was returned, what is held and what waits in the device
        are what has arrived. */
    ghost predicate Ledger()
      reads this, console
    {
      got + (held + console.input) == fed && fed + Flatten(coming) == world
    }

    ghost predicate TxQuiet()
      requires Wired()
      reads this, ram, console, console.queues[0].vq, console.queues[1].vq
    {
      TxIdle(ram[..], s, console.queues[TRANSMITQ].vq.lastAvailIdx, txUsedSeen, txLog)
    }

    ghost predicate RxCalm()
      requires Wired()
      reads this, ram, console, console.queues[0].vq, console.queues[1].vq
    {
      RxQuiet(ram[..], s, console.queues[RECEIVEQ].vq.lastAvailIdx, rxUsedSeen, rxPos, rxLen, rxLog, console.input, held)
    }

    ghost predicate RxLive()
      requires Wired()
      reads this, ram, console, console.queues[0].vq, console.queues[1].vq
    {
      RxOpen(ram[..], s, console.queues[RECEIVEQ].vq.lastAvailIdx, rxUsedSeen, rxPos, rxLen, rxLog, held)
    }

    /** No buffer is with the device. */
    ghost predicate RxIdle()
      requires Wired()
      reads this, ram, console, console.queues[0].vq, console.queues[1].vq
    {
      && Tracks(ram[..], s.Rx(), console.queues[RECEIVEQ].vq.lastAvailIdx, rxLog)
      && |rxLog.published| == |rxLog.used|
    }

    /** What holds between calls. */
    ghost predicate Ready()
      reads this, ram, console, if |console.queues| == 2 then {console.queues[0].vq, console.queues[1].vq} else {}
    {
      Wired() && TxQuiet() && RxCalm() && Ledger()
    }

    method Store32(at: nat, w: word)
      requires at + 4 <= ram.Length
      modifies ram
      ensures ram[..] == Store(old(ram[..]), at, w)
    {
      ram[at], ram[at + 1] := LowByte(w / 0x100_0000), LowByte(w / 0x1_0000);
      ram[at + 2], ram[at + 3] := LowByte(w / 0x100), LowByte(w);
    }

    method Load32(at: nat) returns (w: word)
      requires at + 4 <= ram.Length
      ensures w == WordAt(ram[..], at)
    {
      w := (ram[at] as int) * 0x100_0000 + (ram[at + 1] as int) * 0x1_0000 + (ram[at + 2] as int) * 0x100 + ram[at + 3];
    }

    // Moments at which input may arrive.

    /** What is due now. */
    method Due() returns (data: seq<byte>)
      modifies this`coming, this`fed
      ensures fed == old(fed) + data && fed + Flatten(coming) == old(fed + Flatten(coming))
      ensures if old(coming) == [] then data == [] && coming == [] else |coming| == |old(coming)| - 1
    {
      if coming == [] {
        assert fed + [] == fed;
        return [];
      }
      data := coming[0];
      coming := coming[1..];
      assert old(fed) + (data + Flatten(coming)) == old(fed) + data + Flatten(coming);
      fed := fed + data;
    }

    method Look(notified: bool, data: seq<byte>, ghost log: Log, ghost pend: seq<seq<Area>>)
      returns (ghost after: Log, ghost pieces: seq<seq<byte>>)
      requires Wired() && console.CanReceive(log, pend) && (notified ==> data == [])
      modifies console, ram, console.queues[0].vq, console.queues[1].vq
      ensures console.Valid() && console.Delivered(log, pend, old(console.input) + data, after, pieces)
      ensures console.queues == old(console.queues) && console.output == old(console.output)
      ensures console.status == old(console.status)
      ensures console.queues[TRANSMITQ].vq.lastAvailIdx == old(console.queues[TRANSMITQ].vq.lastAvailIdx)
    {
      hide Tracks, Pending, Placed, Writable, Received, Flowing, Greedy, Sound, Confined;
      if notified {
        assert console.input + data == console.input;
        after, pieces := console.Notify(RECEIVEQ, log, pend);
      } else {
        after, pieces := console.Feed(data, log, pend);
      }
    }

    /** The device looks at its receive queue when it has no buffer: what arrives stays with it. */
    method KeepBack(notified: bool, data: seq<byte>)
      requires Wired() && RxIdle() && (notified ==> data == [])
      modifies ram, console, console.queues[0].vq, console.queues[1].vq
      ensures Wired() && RxIdle() && ram[..] == old(ram[..])
      ensures console.queues == old(console.queues) && console.output == old(console.output)
      ensures console.queues[RECEIVEQ].vq.lastAvailIdx == old(console.queues[RECEIVEQ].vq.lastAvailIdx)
      ensures console.queues[TRANSMITQ].vq.lastAvailIdx == old(console.queues[TRANSMITQ].vq.lastAvailIdx)
      ensures console.input == old(console.input) + data
    {
      hide Tracks, Pending, Placed, Writable, AllInBounds, Received, Flowing, Greedy, Sound, Confined;
      ghost var m, last, input0 := ram[..], console.queues[RECEIVEQ].vq.lastAvailIdx, console.input;
      NothingPending(m, s, last, rxLog);
      ghost var after, pieces := Look(notified, data, rxLog, []);
      InputWaits(ram[..], s, last, rxLog, input0 + data, console.queues[RECEIVEQ].vq.lastAvailIdx, after, pieces,
                 console.input);
    }

    /** The device looks at its receive queue, because it is notified or because input arrives.
        A buffer that still holds bytes is not written. */
    method Answer(notified: bool, data: seq<byte>)
      requires Wired() && RxLive() && (notified ==> data == [])
      modifies this`rxLog, this`held, ram, console, console.queues[0].vq, console.queues[1].vq
      ensures Wired() && RxCalm()
      ensures console.queues == old(console.queues) && console.output == old(console.output)
      ensures console.queues[TRANSMITQ].vq.lastAvailIdx == old(console.queues[TRANSMITQ].vq.lastAvailIdx)
      ensures held + console.input == old(held + console.input) + data
      ensures old(held) != [] ==> held == old(held) && ram[..] == old(ram[..])
      ensures forall a: Area :: OffReceive(s, a) ==> Same(old(ram[..]), ram[..], a)
    {
      hide Tracks, Pending, Placed, Writable, AllInBounds, Received, Flowing, Greedy, Sound, Confined, OffReceive, Same,
        RxOpen, RxQuiet, Flatten;
      ghost var m, last, input0 := ram[..], console.queues[RECEIVEQ].vq.lastAvailIdx, console.input;
      ghost var log := rxLog;
      MayLook(m, s, last, rxUsedSeen, rxPos, rxLen, log, held);
      ghost var pieces;
      rxLog, pieces := Look(notified, data, log, OnOffer(s, held));
      Looked(m, ram[..], s, last, console.queues[RECEIVEQ].vq.lastAvailIdx, rxUsedSeen, rxPos, rxLen, log, held,
             input0 + data, rxLog, pieces, console.input);
      assert held + (input0 + data) == held + input0 + data;
      held := if held == [] then Flatten(pieces) else held;
    }

    /** A moment while no buffer is with the device. */
    method MomentIdle()
      requires Wired() && RxIdle() && Ledger()
      modifies this`coming, this`fed, ram, console, console.queues[0].vq, console.queues[1].vq
      ensures Wired() && RxIdle() && Ledger() && ram[..] == old(ram[..])
      ensures console.queues == old(console.queues) && console.output == old(console.output)
      ensures console.queues[RECEIVEQ].vq.lastAvailIdx == old(console.queues[RECEIVEQ].vq.lastAvailIdx)
      ensures console.queues[TRANSMITQ].vq.lastAvailIdx == old(console.queues[TRANSMITQ].vq.lastAvailIdx)
    {
      hide Tracks, Placed, Flatten;
      var data := Due();
      if data != [] {
        ghost var input0 := console.input;
        KeepBack(false, data);
        assert got + (held + (input0 + data)) == got + (held + input0) + data;
      }
    }

    /** A moment outside the handing out of the buffer: if the device has it, it may fill it. */
    method MomentOpen()
      requires Wired() && RxLive() && Ledger()
      modifies this`coming, this`fed, this`rxLog, this`held, ram, console, console.queues[0].vq, console.queues[1].vq
      ensures Wired() && RxLive() && Ledger() && (old(RxCalm()) ==> RxCalm())
      ensures console.queues == old(console.queues) && console.output == old(console.output)
      ensures console.queues[TRANSMITQ].vq.lastAvailIdx == old(console.queues[TRANSMITQ].vq.lastAvailIdx)
      ensures old(coming) == [] ==> coming == [] && ram[..] == old(ram[..])
      ensures old(coming) != [] ==> |coming| == |old(coming)| - 1
      ensures old(held) != [] ==> held == old(held) && ram[..] == old(ram[..])
      ensures forall a: Area :: OffReceive(s, a) ==> Same(old(ram[..]), ram[..], a)
    {
      hide RxOpen, Placed, Flatten, Same, OffReceive;
      SameAll(ram[..]);
      var data := Due();
      if data != [] {
        ghost var owed := held + console.input;
        Answer(false, data);
        assert got + (owed + data) == got + owed + data;
      }
    }

    /** A moment between or inside calls at which every chain sent was seen, or will be as `seen`. */
    method Moment(ghost seen: word)
      requires Wired() && RxCalm() && Ledger()
      requires TxIdle(ram[..], s, console.queues[TRANSMITQ].vq.lastAvailIdx, seen, txLog)
      modifies this`coming, this`fed, this`rxLog, this`held, ram, console, console.queues[0].vq, console.queues[1].vq
      ensures Wired() && RxCalm() && Ledger()
      ensures TxIdle(ram[..], s, console.queues[TRANSMITQ].vq.lastAvailIdx, seen, txLog)
      ensures console.queues == old(console.queues) && console.output == old(console.output)
      ensures old(coming) != [] ==> |coming| == |old(coming)| - 1
      ensures old(held) != [] ==> held == old(held) && ram[..] == old(ram[..])
      ensures forall a: Area :: OffReceive(s, a) ==> Same(old(ram[..]), ram[..], a)
    {
      hide RxOpen, Placed, Flatten, Same, TxIdle, OffReceive, Ledger;
      ghost var m := ram[..];
      MomentOpen();
      TxOffReceive(s, ram.Length);
      TxFrame(m, ram[..], s, console.queues[TRANSMITQ].vq.lastAvailIdx, seen, txLog);
    }

    // Transmission.

    /** Part-way through handing over a transmit buffer: on the transmit side memory is as in
        m, which has seen only the driver's stores; when calm, so is the buffer. */
    ghost predicate Sending(m: seq<byte>, p: Parcel)
      reads this, ram, console, if |console.queues| == 2 then {console.queues[0].vq, console.queues[1].vq} else {}
    {
      && Wired() && RxCalm() && Ledger() && |m| == ram.Length && TxAll(m, ram[..], s)
      && (p.calm ==> Same(m, ram[..], p.a) && (coming == [] || OffReceive(s, p.a)))
      && console.queues[TRANSMITQ].vq.lastAvailIdx == p.last
    }

    method MomentSending(ghost m: seq<byte>, ghost p: Parcel)
      requires Sending(m, p)
      modifies this`coming, this`fed, this`rxLog, this`held, ram, console, console.queues[0].vq, console.queues[1].vq
      ensures Sending(m, p)
      ensures console.queues == old(console.queues) && console.output == old(console.output)
    {
      hide RxOpen, Placed, Flatten, Same, OffReceive, Ledger, TxAll;
      ghost var c := ram[..];
      MomentOpen();
      TxOffReceive(s, ram.Length);
      TxAllOff(c, ram[..], s);
      TxAllTrans(m, c, ram[..], s);
      if p.calm {
        SameTrans(m, c, ram[..], p.a);
      }
    }

    /** One store of the driver into the transmit queue, and the moment after it. */
    method TxStore(at: nat, w: word, ghost m: seq<byte>, ghost p: Parcel) returns (ghost n: seq<byte>)
      requires Sending(m, p) && TxWord(s, at)
      modifies this`coming, this`fed, this`rxLog, this`held, ram, console, console.queues[0].vq, console.queues[1].vq
      ensures Stored(m, n, at, w) && Sending(n, p)
      ensures console.queues == old(console.queues) && console.output == old(console.output)
    {
      hide RxOpen, Placed, Flatten, Same, OffReceive, Ledger, TxAll, TxWord, RxSame;
      ghost var c := ram[..];
      TxWordInside(s, ram.Length, at);
      TxAllStore(m, c, s, at, w);
      n := Store(m, at, w);
      if p.calm {
        StoreBoth(m, c, p.a, at, w);
      }
      TxWordFrame(c, s, at, w);
      Store32(at, w);
      RxFrame(c, ram[..], s, console.queues[RECEIVEQ].vq.lastAvailIdx, rxUsedSeen, rxPos, rxLen, rxLog, held);
      hide RxQuiet;
      MomentSending(n, p);
    }

    /** The stores of zpu_virtio_console_write into the descriptor. */
    method TxDescribe(addr: word, len: word, ghost m: seq<byte>, ghost p: Parcel)
      returns (ghost n: seq<byte>)
      requires Sending(m, p)
      modifies this`coming, this`fed, this`rxLog, this`held, ram, console, console.queues[0].vq, console.queues[1].vq
      ensures DescribedAs(m, n, s.txDesc, addr, len, 0) && Sending(n, p)
      ensures console.queues == old(console.queues) && console.output == old(console.output)
    {
      hide Sending, Stored, TxWord, RxWord, DescribedAs;
      DriverWords(s);
      ghost var n1 := TxStore(s.txDesc, addr, m, p);
      ghost var n2 := TxStore(s.txDesc + 4, 0, n1, p);
      ghost var n3 := TxStore(s.txDesc + 8, len, n2, p);
      ghost var n4 := TxStore(s.txDesc + 12, 0, n3, p);
      n := TxStore(s.txDesc + 16, 0, n4, p);
      DescribedSteps(m, s.txDesc, addr, len, 0, n1, n2, n3, n4, n);
    }

    lemma SendingInside(m: seq<byte>, p: Parcel)
      requires Sending(m, p)
      ensures |m| == ram.Length && Sound(s.Tx(), |m|)
    {
      hide Placed, RxQuiet, TxAll, Ledger;
      PlacedSound(s, ram.Length);
    }

    /** The store of the ring slot, the load of tx_avail.idx and the store of its successor. */
    method TxPublish(ghost m: seq<byte>, ghost p: Parcel) returns (ghost n: seq<byte>)
      requires Sending(m, p)
      modifies this`coming, this`fed, this`rxLog, this`held, ram, console, console.queues[0].vq, console.queues[1].vq
      ensures PublishedAs(m, n, s.Tx()) && Sending(n, p)
      ensures console.queues == old(console.queues) && console.output == old(console.output)
    {
      hide Sending, Stored, AvailIdx, PublishedAs, Sound, TxWord, RxWord;
      SendingInside(m, p);
      DriverWords(s);
      ghost var c := TxStore(s.txAvail + 8, 0, m, p);
      var idx := TxIndex(c, p);
      MomentSending(c, p);
      n := TxStore(s.txAvail + 4, Wrap((idx as int) + 1), c, p);
      PublishedSteps(m, s.Tx(), c, idx, n);
    }

    /** The stores of zpu_virtio_console_write up to the notification. */
    method TxHandOver(addr: word, len: word, ghost m: seq<byte>, ghost p: Parcel)
      returns (ghost n: seq<byte>)
      requires Sending(m, p)
      modifies this`coming, this`fed, this`rxLog, this`held, ram, console, console.queues[0].vq, console.queues[1].vq
      ensures Sound(s.Tx(), |m|) && n == Handed(m, s.Tx(), addr, len, 0) && Sending(n, p)
      ensures console.queues == old(console.queues) && console.output == old(console.output)
    {
      hide Sending, DescribedAs, PublishedAs, Sound;
      SendingInside(m, p);
      ghost var c := TxDescribe(addr, len, m, p);
      n := TxPublish(c, p);
      HandedSteps(m, c, n, s.Tx(), addr, len, 0);
    }

    /** The load of tx_avail.idx. */
    method TxIndex(ghost m: seq<byte>, ghost p: Parcel) returns (idx: word)
      requires Sending(m, p)
      ensures s.Tx().AvailArea().End() <= |m| && idx == AvailIdx(m, s.Tx())
    {
      PlacedSound(s, ram.Length);
      hide WordAt, Placed, RxQuiet, Ledger, Apart;
      WordSame(m, ram[..], s.Tx().AvailArea(), s.Tx().avail + 4);
      idx := Load32(s.Tx().avail + 4);
    }

    /** zpu_virtio_console_write: when it returns, the bytes are out. They are those the caller
        passed, unless the buffer is one that arriving input is written to. */
    method Write(data: word, len: word) returns (ghost sent: seq<byte>)
      requires Ready() && (data as int) + len <= ram.Length && AwayFrom(s.Tx(), Area(data, len))
      modifies this`coming, this`fed, this`rxLog, this`held, this`txUsedSeen, this`txLog
      modifies ram, console, console.queues[0].vq, console.queues[1].vq
      ensures Ready() && console.queues == old(console.queues)
      ensures console.output == old(console.output) + sent && |sent| == len
      ensures old(coming) == [] || OffReceive(s, Area(data, len)) ==> sent == old(ram[data..(data as nat) + len])
    {
      hide Tracks, Pending, Handed, Placed, RxOpen, RxSame, Sent, ChainsApart, AllInBounds, AwayFrom, Sound, Only,
        TxDone, OffReceive, Flatten, TxAll;
      ghost var m, last, a := ram[..], console.queues[TRANSMITQ].vq.lastAvailIdx, Area(data, len);
      ghost var log, calm := txLog.(published := txLog.published + [0]), coming == [] || OffReceive(s, a);
      WriteHands(m, s, last, txUsedSeen, txLog, data, len);
      TxAllSelf(m, s, a);
      ghost var n := TxHandOver(data, len, m, Parcel(a, calm, last));
      WriteReady(n, ram[..], s, last, log, a, calm);
      sent := Sent(ram[..], [[a]]);
      SentIs(n, a);
      n := ram[..];
      ghost var pieces;
      txLog, pieces := console.Notify(TRANSMITQ, log, [[a]]);
      WriteDone(n, ram[..], s, console.queues[TRANSMITQ].vq.lastAvailIdx, txUsedSeen, log, txLog);
      RxFrame(n, ram[..], s, console.queues[RECEIVEQ].vq.lastAvailIdx, rxUsedSeen, rxPos, rxLen, rxLog, held);
      SeeSent();
    }

    /** The poll of tx_used.idx, which finds it changed the first time it looks, and the second
        load of it. */
    method SeeSent()
      requires Wired() && RxCalm() && Ledger() && s.Tx().UsedArea().End() <= ram.Length
      requires UsedIdx(ram[..], s.Tx()) != txUsedSeen
      requires TxIdle(ram[..], s, console.queues[TRANSMITQ].vq.lastAvailIdx, UsedIdx(ram[..], s.Tx()), txLog)
      modifies this`coming, this`fed, this`rxLog, this`held, this`txUsedSeen
      modifies ram, console, console.queues[0].vq, console.queues[1].vq
      ensures Ready() && console.queues == old(console.queues) && console.output == old(console.output)
    {
      hide Placed, RxQuiet, OffReceive, Flatten, TxIdle, UsedIdx;
      ghost var seen := UsedIdx(ram[..], s.Tx());
      Moment(seen);
      var idx := TxPoll(seen);
      assert idx != txUsedSeen;
      Moment(seen);
      idx := TxPoll(seen);
      txUsedSeen := idx;
      Moment(seen);
    }

    /** A load of tx_used.idx. */
    method TxPoll(ghost seen: word) returns (idx: word)
      requires Wired() && TxIdle(ram[..], s, console.queues[TRANSMITQ].vq.lastAvailIdx, seen, txLog)
      ensures idx == seen
    {
      hide Placed, WordAt, AvailTracks;
      idx := Load32(s.Tx().used + 4);
    }

    /** zpu_virtio_console_putc, whose local variable lives at `slot` on the stack. */
    method Putc(c: byte, slot: word)
      requires Ready() && Unused(s, slot, ram.Length)
      modifies this`coming, this`fed, this`rxLog, this`held, this`txUsedSeen, this`txLog
      modifies ram, console, console.queues[0].vq, console.queues[1].vq
      ensures Ready() && console.queues == old(console.queues) && console.output == old(console.output) + [c]
    {
      hide Tracks, Placed, RxOpen, TxIdle, Flatten;
      ghost var m := ram[..];
      ram[slot] := c;
      ghost var n, a := ram[..], Area(slot, 1);
      SlotWritten(m, n, s, slot);
      TxFrame(m, n, s, console.queues[TRANSMITQ].vq.lastAvailIdx, txUsedSeen, txLog);
      RxFrame(m, n, s, console.queues[RECEIVEQ].vq.lastAvailIdx, rxUsedSeen, rxPos, rxLen, rxLog, held);
      UnusedOff(s, slot, ram.Length);
      hide RxQuiet, Ledger, OffReceive;
      Moment(txUsedSeen);
      SlotStays(n, ram[..], slot);
      assert ram[slot..(slot as nat) + 1] == [c];
      ghost var sent := Write(slot, 1);
    }

    // Reception.

    /** Part-way through handing the drained buffer back, with memory as in m. */
    ghost predicate Returning(m: seq<byte>)
      reads this, ram, console, if |console.queues| == 2 then {console.queues[0].vq, console.queues[1].vq} else {}
    {
      && Wired() && TxQuiet() && Ledger() && held == [] && rxPos == rxLen <= BUFFER_SIZE && m == ram[..]
      && Draining(m, s, console.queues[RECEIVEQ].vq.lastAvailIdx, rxUsedSeen, rxLog)
    }

    lemma ReturningInside(m: seq<byte>)
      requires Returning(m)
      ensures |m| == ram.Length && Sound(s.Rx(), |m|) && s.rxAvail + 12 <= |m|
    {
      hide Placed, Draining, Ledger, TxIdle;
      PlacedSound(s, ram.Length);
    }

    method MomentReturning(ghost m: seq<byte>)
      requires Returning(m)
      modifies this`coming, this`fed, ram, console, console.queues[0].vq, console.queues[1].vq
      ensures Returning(m) && console.queues == old(console.queues) && console.output == old(console.output)
    {
      hide Tracks, Placed, TxIdle, Ledger;
      MomentIdle();
    }

    /** One store of the driver into the receive queue before the index, and the moment after it. */
    method RxStore(at: nat, w: word, ghost m: seq<byte>) returns (ghost n: seq<byte>)
      requires Returning(m) && RxWord(s, at)
      modifies this`coming, this`fed, ram, console, console.queues[0].vq, console.queues[1].vq
      ensures Stored(m, n, at, w) && Returning(n)
      ensures console.queues == old(console.queues) && console.output == old(console.output)
    {
      hide Tracks, Placed, TxIdle, Ledger, RxWord, Store, TxSame;
      RxWordFrame(m, s, at, w);
      RxWordKeeps(m, s, console.queues[RECEIVEQ].vq.lastAvailIdx, rxLog, at, w);
      Store32(at, w);
      n := ram[..];
      TxFrame(m, n, s, console.queues[TRANSMITQ].vq.lastAvailIdx, txUsedSeen, txLog);
      MomentReturning(n);
    }

    /** The stores of post_receive into the descriptor. */
    method RxDescribe(addr: word, len: word, flags: word, ghost m: seq<byte>) returns (ghost n: seq<byte>)
      requires Returning(m)
      modifies this`coming, this`fed, ram, console, console.queues[0].vq, console.queues[1].vq
      ensures DescribedAs(m, n, s.rxDesc, addr, len, flags) && Returning(n)
      ensures console.queues == old(console.queues) && console.output == old(console.output)
    {
      hide Returning, Stored, TxWord, RxWord, DescribedAs;
      DriverWords(s);
      ghost var n1 := RxStore(s.rxDesc, addr, m);
      ghost var n2 := RxStore(s.rxDesc + 4, 0, n1);
      ghost var n3 := RxStore(s.rxDesc + 8, len, n2);
      ghost var n4 := RxStore(s.rxDesc + 12, flags, n3);
      n := RxStore(s.rxDesc + 16, 0, n4);
      DescribedSteps(m, s.rxDesc, addr, len, flags, n1, n2, n3, n4, n);
    }

    /** The device's counters are determined by the logs. */
    lemma LastCounters(m: seq<byte>)
      requires Returning(m)
      ensures console.queues[RECEIVEQ].vq.lastAvailIdx == Wrap(|rxLog.used|)
      ensures console.queues[TRANSMITQ].vq.lastAvailIdx == Wrap(|txLog.used|)
    {
      hide Placed, Sound, AvailTracks, UsedTracks, Ledger;
    }

    /** The load of rx_avail.idx. */
    method RxIndex(ghost m: seq<byte>) returns (idx: word)
      requires Returning(m)
      ensures s.Rx().AvailArea().End() <= |m| && idx == AvailIdx(m, s.Rx())
    {
      ReturningInside(m);
      hide WordAt, Placed, TxIdle, Draining, Ledger, Sound;
      idx := Load32(s.rxAvail + 4);
    }

    /** The store of the ring slot, the load of rx_avail.idx and the store of its successor. Behind
        the last one the buffer is on offer. */
    method RxPublish(ghost m: seq<byte>) returns (ghost n: seq<byte>)
      requires Returning(m)
      modifies this`coming, this`fed, ram, console, console.queues[0].vq, console.queues[1].vq
      ensures n == ram[..] && PublishedAs(m, n, s.Rx()) && Wired() && Ledger()
      ensures console.queues[RECEIVEQ].vq.lastAvailIdx == Wrap(|rxLog.used|)
      ensures console.queues[TRANSMITQ].vq.lastAvailIdx == Wrap(|txLog.used|)
      ensures console.queues == old(console.queues) && console.output == old(console.output)
    {
      hide Returning, Stored, AvailIdx, PublishedAs, Sound, TxWord, RxWord;
      ReturningInside(m);
      DriverWords(s);
      ghost var c := RxStore(s.rxAvail + 8, 0, m);
      var idx := RxIndex(c);
      MomentReturning(c);
      n := RxLast(Wrap((idx as int) + 1), c);
      PublishedSteps(m, s.Rx(), c, idx, n);
    }

    /** The store of rx_avail.idx. */
    method RxLast(w: word, ghost m: seq<byte>) returns (ghost n: seq<byte>)
      requires Returning(m)
      modifies ram
      ensures n == ram[..] && Stored(m, n, s.rxAvail + 4, w) && Wired() && Ledger()
      ensures console.queues[RECEIVEQ].vq.lastAvailIdx == Wrap(|rxLog.used|)
      ensures console.queues[TRANSMITQ].vq.lastAvailIdx == Wrap(|txLog.used|)
    {
      hide Placed, Store, Draining, TxIdle, Sound, Flatten;
      ReturningInside(m);
      LastCounters(m);
      Store32(s.rxAvail + 4, w);
      n := ram[..];
    }

    /** post_receive: the drained buffer goes back to the device. Input that arrives on the way
        finds it once its index is stored, before the device is told of it. */
    method PostReceive()
      requires Returning(ram[..])
      modifies this`coming, this`fed, this`rxLog, this`held, ram, console, console.queues[0].vq, console.queues[1].vq
      ensures Ready() && console.queues == old(console.queues) && console.output == old(console.output)
    {
      hide Tracks, Pending, DescribedAs, PublishedAs, Handed, Placed, Writable, Sound, TxSame, TxIdle, Held,
        OffReceive, Flatten;
      ghost var m, last := ram[..], console.queues[RECEIVEQ].vq.lastAvailIdx;
      PostHands(m, s, last, rxUsedSeen, rxLog);
      BufferInside(s, ram.Length);
      LastCounters(m);
      ghost var c := RxDescribe(s.rxBuf, BUFFER_SIZE, DESC_FLAG_WRITE, m);
      ghost var n := RxPublish(c);
      HandedSteps(m, c, n, s.Rx(), s.rxBuf, BUFFER_SIZE, DESC_FLAG_WRITE);
      TxFrame(m, ram[..], s, console.queues[TRANSMITQ].vq.lastAvailIdx, txUsedSeen, txLog);
      rxLog := rxLog.(published := rxLog.published + [0]);
      hide Waiting, Draining, Ledger;
      MomentLive();
      NotifyReceive();
      Moment(txUsedSeen);
    }

    /** A moment at which the buffer is on offer and the device has not been told. */
    method MomentLive()
      requires Wired() && TxQuiet() && RxLive() && Ledger()
      modifies this`coming, this`fed, this`rxLog, this`held, ram, console, console.queues[0].vq, console.queues[1].vq
      ensures Wired() && TxQuiet() && RxLive() && Ledger()
      ensures console.queues == old(console.queues) && console.output == old(console.output)
    {
      hide RxOpen, Placed, TxIdle, OffReceive, Ledger;
      ghost var m := ram[..];
      MomentOpen();
      TxOffReceive(s, ram.Length);
      TxFrame(m, ram[..], s, console.queues[TRANSMITQ].vq.lastAvailIdx, txUsedSeen, txLog);
    }

    /** The notification at the end of post_receive. */
    method NotifyReceive()
      requires Wired() && TxQuiet() && RxLive() && Ledger()
      modifies this`rxLog, this`held, ram, console, console.queues[0].vq, console.queues[1].vq
      ensures Ready() && console.queues == old(console.queues) && console.output == old(console.output)
    {
      hide RxOpen, RxQuiet, Placed, TxIdle, OffReceive, Flatten;
      ghost var m, owed := ram[..], held + console.input;
      Answer(true, []);
      assert owed + [] == owed;
      TxOffReceive(s, ram.Length);
      TxFrame(m, ram[..], s, console.queues[TRANSMITQ].vq.lastAvailIdx, txUsedSeen, txLog);
    }

    /** The driver has bytes in hand: the unread part of the buffer. */
    ghost predicate InHand()
      reads this, ram, console, if |console.queues| == 2 then {console.queues[0].vq, console.queues[1].vq} else {}
    {
      && Wired() && TxQuiet() && Ledger() && rxPos < rxLen <= BUFFER_SIZE && s.Buf().End() <= ram.Length
      && Draining(ram[..], s, console.queues[RECEIVEQ].vq.lastAvailIdx, rxUsedSeen, rxLog)
      && held == Held(ram[..], s, rxPos, rxLen)
    }

    /** zpu_virtio_console_getc: polls until a byte has arrived and returns it; None if it is still
        polling when nothing more is to come, and then every byte was returned. */
    method Getc() returns (c: Option<byte>)
      requires Ready()
      modifies this`coming, this`fed, this`got, this`rxLog, this`held, this`rxUsedSeen, this`rxPos, this`rxLen
      modifies ram, console, console.queues[0].vq, console.queues[1].vq
      ensures Ready() && console.queues == old(console.queues) && console.output == old(console.output)
      ensures c.None? ==> got == old(got) == fed && coming == []
      ensures c.Some? ==> got == old(got) + [c.value]
    {
      hide Placed, TxIdle, RxOpen, Draining, Flatten;
      if rxPos == rxLen {
        var ok := Await();
        if !ok {
          assert got + ([] + []) == got;
          return None;
        }
        PickIndex();
        MomentFull();
        PickLength();
        PickPosition();
      } else {
        UnreadInHand();
      }
      var b := Take();
      c := Some(b);
    }

    lemma UnreadInHand()
      requires Ready() && rxPos != rxLen
      ensures InHand()
    {
      hide Placed, TxIdle, Draining, Ledger;
    }

    /** The poll of rx_used.idx at a drained buffer. */
    method Await() returns (ok: bool)
      requires Ready() && rxPos == rxLen
      modifies this`coming, this`fed, this`rxLog, this`held, ram, console, console.queues[0].vq, console.queues[1].vq
      ensures Ready() && console.queues == old(console.queues) && console.output == old(console.output)
      ensures if ok then held != [] else held == [] && console.input == [] && coming == []
    {
      hide Placed, TxIdle, RxOpen, Ledger, OffReceive;
      while true
        invariant Ready() && console.queues == old(console.queues) && console.output == old(console.output)
        decreases |coming|
      {
        var idx := RxPoll();
        if idx != rxUsedSeen {
          return true;
        }
        if coming == [] {
          return false;
        }
        Moment(txUsedSeen);
      }
    }

    /** A load of rx_used.idx. */
    method RxPoll() returns (idx: word)
      requires Wired() && RxLive() && rxPos == rxLen
      ensures idx == rxUsedSeen <==> held == []
      ensures held != [] ==> Draining(ram[..], s, console.queues[RECEIVEQ].vq.lastAvailIdx, idx, rxLog)
    {
      PollSees(ram[..], s, console.queues[RECEIVEQ].vq.lastAvailIdx, rxUsedSeen, rxPos, rxLog, held);
      QueueInside(s, ram.Length);
      hide RxOpen, Placed, Draining, WordAt;
      idx := Load32(s.Rx().used + 4);
    }

    /** The completion has been seen, but not its length. */
    ghost predicate Full()
      reads this, ram, console, if |console.queues| == 2 then {console.queues[0].vq, console.queues[1].vq} else {}
    {
      && Wired() && TxQuiet() && Ledger() && 1 <= |held| <= BUFFER_SIZE && s.Buf().End() <= ram.Length
      && Draining(ram[..], s, console.queues[RECEIVEQ].vq.lastAvailIdx, rxUsedSeen, rxLog)
      && held == Held(ram[..], s, 0, |held|)
      && s.Rx().UsedArea().End() <= ram.Length && UsedEntry(ram[..], s.Rx(), 0).len == |held|
    }

    method MomentFull()
      requires Full()
      modifies this`coming, this`fed, ram, console, console.queues[0].vq, console.queues[1].vq
      ensures Full() && console.queues == old(console.queues) && console.output == old(console.output)
    {
      hide Tracks, Placed, TxIdle, Ledger, UsedEntry, Held;
      MomentIdle();
    }

    /** The second load of the index, behind the poll. */
    method PickIndex()
      requires Ready() && rxPos == rxLen && held != []
      modifies this`coming, this`fed, this`rxLog, this`held, this`rxUsedSeen
      modifies ram, console, console.queues[0].vq, console.queues[1].vq
      ensures Full() && console.queues == old(console.queues) && console.output == old(console.output)
    {
      hide Placed, TxIdle, Flatten, OffReceive, RxOpen, Draining, UsedEntry, Held;
      Moment(txUsedSeen);
      PollSees(ram[..], s, console.queues[RECEIVEQ].vq.lastAvailIdx, rxUsedSeen, rxPos, rxLog, held);
      QueueInside(s, ram.Length);
      ArrivedShape(ram[..], s, console.queues[RECEIVEQ].vq.lastAvailIdx, rxUsedSeen, rxPos, rxLog, held);
      var idx := RxPoll();
      rxUsedSeen := idx;
    }

    /** The load of the length. */
    method LoadLength() returns (len: word)
      requires Full()
      ensures len == |held|
    {
      FirstEntry(ram[..], s.Rx());
      hide Placed, TxIdle, Flatten, Draining, UsedEntry, Held, WordAt;
      len := Load32(s.Rx().used + 12);
    }

    /** rx_len = rx_used.ring[0].len */
    method PickLength()
      requires Full()
      modifies this`coming, this`fed, this`rxLen, ram, console, console.queues[0].vq, console.queues[1].vq
      ensures Full() && rxLen == |held| && console.queues == old(console.queues)
              && console.output == old(console.output)
    {
      var len := LoadLength();
      hide Placed, TxIdle, Flatten, Draining, UsedEntry, Held;
      rxLen := len;
      MomentFull();
    }

    /** rx_pos = 0 */
    method PickPosition()
      requires Full() && rxLen == |held|
      modifies this`coming, this`fed, this`rxPos, ram, console, console.queues[0].vq, console.queues[1].vq
      ensures InHand() && console.queues == old(console.queues) && console.output == old(console.output)
    {
      hide Placed, TxIdle, Flatten, Draining, UsedEntry, Held;
      rxPos := 0;
      MomentFull();
    }

    /** The next byte in hand; the buffer goes back after its last one. */
    method Take() returns (b: byte)
      requires InHand()
      modifies this`coming, this`fed, this`got, this`rxLog, this`held, this`rxPos
      modifies ram, console, console.queues[0].vq, console.queues[1].vq
      ensures Ready() && console.queues == old(console.queues) && console.output == old(console.output)
      ensures got == old(got) + [b]
    {
      hide Tracks, Placed, Sound, TxIdle, Flatten;
      b := ram[s.rxBuf + rxPos];
      assert held == [b] + held[1..] && held[1..] == Held(ram[..], s, rxPos + 1, rxLen);
      assert got + (([b] + held[1..]) + console.input) == (got + [b]) + (held[1..] + console.input);
      rxPos := rxPos + 1;
      held := held[1..];
      got := got + [b];
      MomentIdle();
      if rxPos == rxLen {
        PostReceive();
      }
    }

    /** configure_queue */
    method ConfigureQueue(index: word, desc: word, avail: word, used: word)
      requires console.Valid() && console.ram == ram && index < 2
      modifies console
      ensures console.Valid() && console.status == old(console.status)
      ensures console.input == old(console.input) && console.output == old(console.output)
      ensures console.queues[1 - index] == old(console.queues[1 - index])
      ensures var vq := console.queues[index].vq;
              vq != null && fresh(vq) && vq.layout == Layout(1, desc, avail, used) && vq.lastAvailIdx == 0
    {
      console.Write32(QUEUESEL, index);
      var ok := console.WriteQueue(QUEUENUM, 1);
      ok := console.WriteQueue(QUEUEDESCLOW, desc);
      ok := console.WriteQueue(QUEUEAVAILLOW, avail);
      ok := console.WriteQueue(QUEUEUSEDLOW, used);
      ok := console.WriteQueue(QUEUEREADY, 1);
    }

    /** The register writes of zpu_virtio_console_init: status handshake and both queues. */
    method BringUp()
      requires console.Valid() && console.ram == ram && Placed(s, ram.Length)
      modifies console
      ensures Wired() && fresh(console.queues[0].vq) && fresh(console.queues[1].vq)
      ensures console.queues[0].vq.lastAvailIdx == 0 && console.queues[1].vq.lastAvailIdx == 0
      ensures console.input == old(console.input) && console.output == old(console.output)
    {
      hide Placed;
      console.Write32(STATUS, 1);
      console.Write32(STATUS, 3);
      console.Write32(STATUS, 11);
      ConfigureQueue(TRANSMITQ, s.txDesc, s.txAvail, s.txUsed);
      ConfigureQueue(RECEIVEQ, s.rxDesc, s.rxAvail, s.rxUsed);
      console.Write32(STATUS, 15);
    }

    /** zpu_virtio_console_init, on statics that start out zero. Input that arrived earlier is
        not lost. */
    method Init()
      requires console.Valid() && console.ram == ram && Placed(s, ram.Length) && Fresh(ram[..], s)
      modifies this, ram, console
      ensures Ready() && fresh(console.queues[0].vq) && fresh(console.queues[1].vq)
      ensures got == [] && world == old(console.input + Flatten(coming)) && console.output == old(console.output)
    {
      hide Tracks, Placed, RxQuiet, TxIdle, Fresh, Flatten;
      BringUp();
      txUsedSeen, rxUsedSeen, rxPos, rxLen := 0, 0, 0, 0;
      txLog, rxLog, held, got, fed := Log([], []), Log([], []), [], [], console.input;
      world := fed + Flatten(coming);
      assert [] + ([] + console.input) == console.input;
      FreshIdle(ram[..], s);
      PostReceive();
    }

    /** One event: what getc returned, if it was called. */
    method Serve(e: Event) returns (out: seq<byte>)
      requires Ready() && (e.PutByte? ==> Unused(s, e.slot, ram.Length))
      modifies this`coming, this`fed, this`got, this`rxLog, this`held, this`rxUsedSeen, this`rxPos, this`rxLen
      modifies this`txUsedSeen, this`txLog, ram, console, console.queues[0].vq, console.queues[1].vq
      ensures Ready() && console.queues == old(console.queues) && got == old(got) + out
      ensures console.output == old(console.output) + e.Puts()
    {
      hide Placed, RxQuiet, TxIdle, Ledger, OffReceive;
      out := [];
      match e {
        case Idle =>
          Moment(txUsedSeen);
        case PutByte(c, slot) =>
          Putc(c, slot);
        case Get =>
          var c := Getc();
          if c.Some? {
            out := [c.value];
          }
      }
    }

    /** Any sequence of calls, with input arriving at any of the moments between their loads and
        stores: what getc has returned, followed by what is held, what waits in the device and
        what is still to come, is everything that ever arrives; what was put is what came out. */
    method Session(events: seq<Event>) returns (out: seq<byte>)
      requires Ready() && forall e :: e in events && e.PutByte? ==> Unused(s, e.slot, ram.Length)
      modifies this`coming, this`fed, this`got, this`rxLog, this`held, this`rxUsedSeen, this`rxPos, this`rxLen
      modifies this`txUsedSeen, this`txLog, ram, console, console.queues[0].vq, console.queues[1].vq
      ensures Ready() && console.queues == old(console.queues) && got == old(got) + out
      ensures old(got) + out + (held + console.input) + Flatten(coming) == world
      ensures console.output == old(console.output) + Put(events)
    {
      hide Ready, Put, Unused;
      out := [];
      NoEvents();
      for i := 0 to |events|
        invariant Ready() && console.queues == old(console.queues) && got == old(got) + out
        invariant console.output == old(console.output) + Put(events[..i])
      {
        OneMore(events, i);
        var more := Serve(events[i]);
        out := out + more;
        assert events[..i + 1] == events[..i] + [events[i]];
      }
      assert events[..|events|] == events;
      Settled();
    }

    lemma Settled()
      requires Ready()
      ensures got + (held + console.input) + Flatten(coming) == world
    {
      hide Placed, RxQuiet, TxIdle, Flatten;
    }
  }

  /** A transmit buffer on its way: where it is, whether arriving input leaves it alone, and the
      device's counter. */
  datatype Parcel = Parcel(a: Area, calm: bool, last: word)

  /** A moment without a call; a byte put from a stack slot; a call of getc. */
  datatype Event = Idle | PutByte(c: byte, slot: word) | Get
  {
    function Puts(): seq<byte> { if PutByte? then [c] else [] }
  }

  /** All bytes put in a session, in order. */
  function Put(events: seq<Event>): seq<byte> {
    if events == [] then [] else Put(events[..|events| - 1]) + events[|events| - 1].Puts()
  }

  lemma NoEvents()
    ensures Put([]) == []
  {
  }

  lemma OneMore(events: seq<Event>, i: nat)
    requires i < |events|
    ensures Put(events[..i + 1]) == Put(events[..i]) + events[i].Puts()
  {
    assert events[..i + 1][..i] == events[..i];
  }
}
