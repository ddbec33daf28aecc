/** The console device: the register file of soc/virtio.py's VirtioMMIODevice and the queue
    handling of soc/virtio_console.py. */
module VirtioConsole {
  import opened Words
  import opened Ring
  import opened Chain
  import opened VirtQueue
  import opened Drain

  const RECEIVEQ := 0
  const TRANSMITQ := 1

  const QUEUESEL := 0x030
  const QUEUENUM := 0x038
  const QUEUEREADY := 0x044
  const QUEUENOTIFY := 0x050
  const INTERRUPTACK := 0x064
  const STATUS := 0x070
  const QUEUEDESCLOW := 0x080
  const QUEUEAVAILLOW := 0x090
  const QUEUEUSEDLOW := 0x0a0
  const EMERG_WR := 0x10c

  /** status & DRIVER_OK */
  predicate DriverOk(status: word) { status / 4 % 2 == 1 }

  /** The registers of one queue, and the queue once it has been made ready. */
  datatype QueueState = QueueState(numMax: nat, num: word, ready: bool, desc: word, avail: word, used: word,
                                   vq: Virtqueue?)
  {
    function At(): Layout { Layout(num, desc, avail, used) }
  }

  class Console {
    const ram: array<byte>
    var queues: seq<QueueState>
    var selected: word
    var status: word
    /** bit 0, the only one the device sets */
    var interrupt: bool
    var input: seq<byte>
    var output: seq<byte>

    ghost predicate Valid()
      reads this, if |queues| == 2 then {queues[0].vq, queues[1].vq} else {}
    {
      && |queues| == 2 && (queues[0].vq != null ==> queues[0].vq != queues[1].vq)
      && (forall i :: 0 <= i < 2 && queues[i].vq != null ==> queues[i].vq.ram == ram)
    }

    constructor (ram: array<byte>, size: nat)
      ensures Valid() && this.ram == ram && input == [] && output == [] && status == 0
      ensures queues == [QueueState(size, 0, false, 0, 0, 0, null), QueueState(size, 0, false, 0, 0, 0, null)]
    {
      this.ram := ram;
      var q := QueueState(size, 0, false, 0, 0, 0, null);
      queues := [q, q];
      selected, status, interrupt, input, output := 0, 0, false, [], [];
    }

    /** Queue i is ready and its memory and counter hold this log, with these chains pending. */
    ghost predicate Holds(i: nat, log: Log, pend: seq<seq<Area>>)
      requires Valid() && i < 2
      reads this, ram, queues[0].vq, queues[1].vq
    {
      var vq := queues[i].vq;
      && vq != null && Tracks(ram[..], vq.layout, vq.lastAvailIdx, log) && Pending(ram[..], vq.layout, log, pend)
    }

    /** Since the old state every pending chain was sent, in order, and completed with its
        length, and any completion raised the interrupt; `after` is the queue's log now. */
    twostate predicate Transmitted(log: Log, pend: seq<seq<Area>>, after: Log)
      requires Valid()
      reads this, ram, queues[0].vq, queues[1].vq
    {
      var vq := queues[TRANSMITQ].vq;
      if vq == null then
        after == log && output == old(output) && ram[..] == old(ram[..]) && interrupt == old(interrupt)
      else
        && interrupt == (old(interrupt) || pend != [])
        && Holds(TRANSMITQ, after, []) && after.published == log.published
        && AllInBounds(pend, ram.Length) && output == old(output) + Sent(old(ram[..]), pend)
        && |log.published| == |log.used| + |pend| && after.used == log.used + TxDone(log.published[|log.used|..], pend)
        && Only(old(ram[..]), ram[..], vq.layout.UsedArea())
    }

    /** Since the old state the oldest chains took `pieces` off the front of the input, each
        as much as it could hold, until input or chains ran out, and any completion raised
        the interrupt. */
    twostate predicate Delivered(log: Log, pend: seq<seq<Area>>, input0: seq<byte>, after: Log, pieces: seq<seq<byte>>)
      requires Valid()
      reads this, ram, queues[0].vq, queues[1].vq
    {
      var vq := queues[RECEIVEQ].vq;
      if vq == null then
        after == log && input == input0 && ram[..] == old(ram[..]) && interrupt == old(interrupt)
      else
        && interrupt == (old(interrupt) || pieces != [])
        && |pieces| <= |pend| && Holds(RECEIVEQ, after, pend[|pieces|..])
        && AllInBounds(pend, ram.Length) && Received(ram[..], pend, pieces)
        && Confined(old(ram[..]), ram[..], pend[..|pieces|], vq.layout.UsedArea())
        && Flowing(log, input0, after, pieces, input) && Greedy(pend, pieces, input)
        && (input == [] || |pieces| == |pend|) && (pieces == [] ==> ram[..] == old(ram[..]))
    }

    /** The transmit queue, if ready, is as the driver must leave it. */
    ghost predicate CanTransmit(log: Log, pend: seq<seq<Area>>)
      requires Valid()
      reads this, ram, queues[0].vq, queues[1].vq
    {
      queues[TRANSMITQ].vq != null ==>
        Holds(TRANSMITQ, log, pend) && ChainsApart(pend, queues[TRANSMITQ].vq.layout.UsedArea())
    }

    /** The receive queue, if ready, is as the driver must leave it. */
    ghost predicate CanReceive(log: Log, pend: seq<seq<Area>>)
      requires Valid()
      reads this, ram, queues[0].vq, queues[1].vq
    {
      queues[RECEIVEQ].vq != null ==> Holds(RECEIVEQ, log, pend) && Writable(queues[RECEIVEQ].vq.layout, pend)
    }

    method DrainTransmit(ghost log: Log, ghost pend: seq<seq<Area>>) returns (ghost after: Log)
      requires Valid() && CanTransmit(log, pend)
      modifies this`output, this`interrupt, ram, queues[TRANSMITQ].vq
      ensures Valid() && Transmitted(log, pend, after)
    {
      hide Tracks, Pending, ChainsApart, Sent, TxDone, Only, Completed, Sending, Gather, Sound, AvailRing,
        AvailIdx, ChainIs, InSlot, EntryAdded;
      after := log;
      if queues[TRANSMITQ].vq == null {
        return;
      }
      var vq := queues[TRANSMITQ].vq;
      var q := vq.layout;
      ghost var m, rest, sent := ram[..], pend, [];
      SendingStarts(m, q, vq.lastAvailIdx, log, pend);
      while true
        invariant Valid() && vq.ram == ram && queues == old(queues) && output == old(output) + sent
        invariant Sending(m, log, pend, ram[..], q, vq.lastAvailIdx, after, rest, sent)
        invariant |rest| <= |pend| && interrupt == (old(interrupt) || |rest| < |pend|)
        decreases |rest|
      {
        SendingNow(m, log, pend, ram[..], q, vq.lastAvailIdx, after, rest, sent);
        var more := vq.HasPending();
        if !more {
          break;
        }
        var head := vq.NextPending();
        var data := vq.ReadChain(head, rest[0]);
        SendingOn(m, log, pend, ram[..], q, vq.lastAvailIdx, after, rest, sent);
        output := output + data;
        vq.Complete(head, |data|);
        vq.Advance();
        interrupt := true;
        after := after.(used := after.used + [Done(head, Wrap(Capacity(rest[0])))]);
        sent := sent + data;
        rest := rest[1..];
      }
      SendingEnds(m, log, pend, ram[..], q, vq.lastAvailIdx, after, sent);
    }

    method DrainReceive(ghost log: Log, ghost pend: seq<seq<Area>>)
      returns (ghost after: Log, ghost pieces: seq<seq<byte>>)
      requires Valid() && CanReceive(log, pend)
      modifies this`input, this`interrupt, ram, queues[RECEIVEQ].vq
      ensures Valid() && Delivered(log, pend, old(input), after, pieces)
    {
      hide Tracks, Pending, Writable, Received, Confined, Completed, Filling, Flowing, Scatter, Sound, AvailRing,
        AvailIdx, ChainIs, Capacity, Greedy, InSlot, EntryAdded;
      after, pieces := log, [];
      if queues[RECEIVEQ].vq == null {
        return;
      }
      var vq := queues[RECEIVEQ].vq;
      var q := vq.layout;
      ghost var m := ram[..];
      ReceivingStarts(m, q, vq.lastAvailIdx, log, pend, input);
      NoneGreedy(pend, input);
      while input != []
        invariant Valid() && vq.ram == ram && queues == old(queues) && |pieces| <= |pend|
        invariant Filling(m, pend, ram[..], q, vq.lastAvailIdx, after, pieces)
        invariant Flowing(log, old(input), after, pieces, input) && (pieces == [] ==> ram[..] == m)
        invariant Greedy(pend, pieces, input) && interrupt == (old(interrupt) || pieces != [])
        decreases |pend| - |pieces|
      {
        FillingNow(m, pend, ram[..], q, vq.lastAvailIdx, after, pieces);
        var more := vq.HasPending();
        if !more {
          break;
        }
        var head := vq.NextPending();
        FillingOn(m, pend, ram[..], q, vq.lastAvailIdx, after, pieces, input);
        var written := vq.WriteChain(head, input, pend[|pieces|]);
        FlowingOn(log, old(input), after, pieces, input, written);
        GreedyOn(pend, pieces, input, written);
        vq.Complete(head, written);
        vq.Advance();
        interrupt := true;
        after := after.(used := after.used + [Done(head, Wrap(written))]);
        pieces := pieces + [input[..written]];
        input := input[written..];
      }
      FillingEnd(m, pend, ram[..], q, vq.lastAvailIdx, after, pieces);
    }

    /** feed: more input arrives from outside. */
    method Feed(data: seq<byte>, ghost log: Log, ghost pend: seq<seq<Area>>)
      returns (ghost after: Log, ghost pieces: seq<seq<byte>>)
      requires Valid() && CanReceive(log, pend)
      modifies this`input, this`interrupt, ram, queues[RECEIVEQ].vq
      ensures Valid() && Delivered(log, pend, old(input) + data, after, pieces)
    {
      input := input + data;
      after, pieces := DrainReceive(log, pend);
    }

    /** A write to QUEUENOTIFY, ignored until the driver has announced DRIVER_OK. */
    method Notify(queue: word, ghost log: Log, ghost pend: seq<seq<Area>>)
      returns (ghost after: Log, ghost pieces: seq<seq<byte>>)
      requires Valid()
      requires DriverOk(status) && queue == TRANSMITQ ==> CanTransmit(log, pend)
      requires DriverOk(status) && queue == RECEIVEQ ==> CanReceive(log, pend)
      modifies this`output, this`input, this`interrupt, ram, queues[RECEIVEQ].vq, queues[TRANSMITQ].vq
      ensures Valid()
      ensures if status / 4 % 2 == 0 || queue >= 2 then ram[..] == old(ram[..]) && output == old(output)
              && input == old(input) && interrupt == old(interrupt)
              else if queue == 1 then Transmitted(log, pend, after) && input == old(input)
              else Delivered(log, pend, old(input), after, pieces) && output == old(output)
      ensures queue != RECEIVEQ && queues[RECEIVEQ].vq != null ==>
                queues[RECEIVEQ].vq.lastAvailIdx == old(queues[RECEIVEQ].vq.lastAvailIdx)
      ensures queue != TRANSMITQ && queues[TRANSMITQ].vq != null ==>
                queues[TRANSMITQ].vq.lastAvailIdx == old(queues[TRANSMITQ].vq.lastAvailIdx)
    {
      hide Transmitted, Delivered;
      after, pieces := log, [];
      if !DriverOk(status) {
        return;
      }
      if queue == TRANSMITQ {
        after := DrainTransmit(log, pend);
      } else if queue == RECEIVEQ {
        after, pieces := DrainReceive(log, pend);
      }
    }

    /** write32 on the registers of the selected queue: a queue that does not exist is an
        error, and making a queue ready captures its registers in a new Virtqueue. */
    method WriteQueue(offset: nat, value: word) returns (ok: bool)
      requires Valid() && offset in {QUEUENUM, QUEUEREADY, QUEUEDESCLOW, QUEUEAVAILLOW, QUEUEUSEDLOW}
      modifies this`queues
      ensures Valid() && (ok <==> selected < 2) && (!ok ==> queues == old(queues))
      ensures ok ==>
                var q := old(queues)[selected];
                match offset
                case 0x038 => queues == old(queues)[selected := q.(num := value)]
                case 0x080 => queues == old(queues)[selected := q.(desc := value)]
                case 0x090 => queues == old(queues)[selected := q.(avail := value)]
                case 0x0a0 => queues == old(queues)[selected := q.(used := value)]
                case _ =>
                  var vq := queues[selected].vq;
                  queues == old(queues)[selected := q.(ready := value != 0, vq := vq)]
                  && if value == 0 then vq == q.vq
                     else vq != null && fresh(vq) && vq.ram == ram && vq.layout == q.At() && vq.lastAvailIdx == 0
    {
      if selected >= 2 {
        return false;
      }
      var q := queues[selected];
      if offset == QUEUENUM {
        q := q.(num := value);
      } else if offset == QUEUEREADY {
        q := q.(ready := value != 0);
        if q.ready {
          var vq := new Virtqueue(ram, q.At());
          q := q.(vq := vq);
        }
      } else if offset == QUEUEDESCLOW {
        q := q.(desc := value);
      } else if offset == QUEUEAVAILLOW {
        q := q.(avail := value);
      } else {
        q := q.(used := value);
      }
      queues := queues[selected := q];
      ok := true;
    }

    /** write32 on every other register but QUEUENOTIFY. */
    method Write32(offset: nat, value: word)
      requires Valid() && offset !in {QUEUENUM, QUEUEREADY, QUEUEDESCLOW, QUEUEAVAILLOW, QUEUEUSEDLOW, QUEUENOTIFY}
      modifies this`selected, this`queues, this`status, this`interrupt, this`output
      ensures Valid() && selected == (if offset == 0x030 then value else old(selected))
      ensures status == (if offset == 0x070 then value else old(status))
      ensures offset == 0x070 && value == 0 ==>
                && !interrupt
                && forall i :: 0 <= i < 2 ==> queues[i] == old(queues)[i].(num := 0, ready := false, vq := null)
      ensures !(offset == 0x070 && value == 0) ==>
                && queues == old(queues)
                && (interrupt <==> old(interrupt) && !(offset == 0x064 && value % 2 == 1))
      ensures output == old(output) + if offset == 0x10c then [LowByte(value)] else []
    {
      if offset == QUEUESEL {
        selected := value;
      } else if offset == INTERRUPTACK {
        interrupt := interrupt && value % 2 == 0;
      } else if offset == STATUS {
        status := value;
        if value == 0 {
          queues := [queues[0].(num := 0, ready := false, vq := null),
                     queues[1].(num := 0, ready := false, vq := null)];
          interrupt := false;
        }
      } else if offset == EMERG_WR {
        output := output + [LowByte(value)];
      }
    }
  }
}
