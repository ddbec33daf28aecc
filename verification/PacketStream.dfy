/** The packet parser of gdb/gdbstub.py: bytes arrive in pieces of any size, events come out. */
module PacketStream {
  import opened Ascii
  import opened Words
  import opened Memory
  import opened Digits

  datatype Event = Ack | Nak | Interrupt | BadPacket | Packet(data: seq<byte>)

  /** What next_event does with a buffer: report an event, ask for more bytes, or raise on a
      checksum that is not a number. */
  datatype Next =
    | Emit(event: Event, rest: seq<byte>)
    | Wait(rest: seq<byte>)
    | Raise(rest: seq<byte>)

  const DOLLAR: byte := 0x24
  const HASH: byte := 0x23

  function Sum(data: seq<byte>): nat {
    if data == [] then 0 else data[0] + Sum(data[1..])
  }

  /** sum(data) & 0xff */
  function Checksum(data: seq<byte>): byte { Sum(data) % 0x100 }

  /** int(bytes, 16) of two bytes: two digits, or one digit after a sign or beside a blank. */
  function Number(a: byte, b: byte): Option<int> {
    var hi, lo := DigitOf(a), DigitOf(b);
    if hi < 16 && lo < 16 then Some(hi * 16 + lo)
    else if hi < 16 then (if IsSpace(b) then Some(hi) else None)
    else if lo < 16 && a == 0x2d then Some(-(lo as int))
    else if lo < 16 && (a == 0x2b || IsSpace(a)) then Some(lo)
    else None
  }

  function Frame(data: seq<byte>): seq<byte> {
    [DOLLAR] + data + [HASH, DigitChar(Checksum(data) / 16), DigitChar(Checksum(data) % 16)]
  }

  /** buf.find(b"#") */
  function Find(buf: seq<byte>): (r: Option<nat>)
    ensures r.Some? ==> r.value < |buf| && buf[r.value] == HASH && HASH !in buf[..r.value]
    ensures r.None? ==> HASH !in buf
  {
    if buf == [] then None
    else if buf[0] == HASH then Some(0)
    else
      var i :- Find(buf[1..]);
      assert buf[..i + 1] == [buf[0]] + buf[1..][..i];
      Some(i + 1)
  }

  /** A buffer that starts with '$'. */
  function NextPacket(buf: seq<byte>): Next
    requires buf != [] && buf[0] == DOLLAR
  {
    var end := Find(buf);
    if end.None? || |buf| < end.value + 3 then Wait(buf)
    else
      match Number(buf[end.value + 1], buf[end.value + 2]) {
        case None => Raise(buf)
        case Some(theirs) =>
          var data := buf[1..end.value];
          Emit(if theirs != Checksum(data) then BadPacket else Packet(data), buf[end.value + 3..])
      }
  }

  /** next_event, skipping bytes that start nothing. */
  function NextEvent(buf: seq<byte>): (r: Next)
    ensures r.Emit? ==> |r.rest| < |buf|
  {
    if buf == [] then Wait(buf)
    else if buf[0] == 0x2b then Emit(Ack, buf[1..])
    else if buf[0] == 0x2d then Emit(Nak, buf[1..])
    else if buf[0] == 0x03 then Emit(Interrupt, buf[1..])
    else if buf[0] == DOLLAR then NextPacket(buf)
    else NextEvent(buf[1..])
  }

  /** All events of a buffer, and how the parser stands after the last of them. */
  datatype Outcome = Outcome(events: seq<Event>, left: Next)

  function Drain(buf: seq<byte>): (r: Outcome)
    ensures !r.left.Emit?
    decreases |buf|
  {
    var next := NextEvent(buf);
    if next.Emit? then
      var more := Drain(next.rest);
      Outcome([next.event] + more.events, more.left)
    else
      Outcome([], next)
  }

  // More bytes never change what was already decided.

  lemma {:induction false} FindExtends(a: seq<byte>, b: seq<byte>)
    requires Find(a).Some?
    ensures Find(a + b) == Find(a)
  {
    if a[0] != HASH {
      FindExtends(a[1..], b);
      assert (a + b)[1..] == a[1..] + b;
    }
  }

  lemma PacketExtends(a: seq<byte>, b: seq<byte>)
    requires a != [] && a[0] == DOLLAR && !NextPacket(a).Wait?
    ensures NextPacket(a + b) == NextPacket(a).(rest := NextPacket(a).rest + b)
  {
    FindExtends(a, b);
    var end := Find(a).value;
    assert (a + b)[1..end] == a[1..end] && (a + b)[end + 3..] == a[end + 3..] + b;
  }

  lemma {:induction false} NextExtends(a: seq<byte>, b: seq<byte>)
    ensures var r := NextEvent(a);
            if r.Wait? then NextEvent(a + b) == NextEvent(r.rest + b)
            else NextEvent(a + b) == r.(rest := r.rest + b)
    decreases |a|
  {
    if a == [] {
      assert a + b == b;
    } else {
      assert (a + b)[1..] == a[1..] + b;
      if a[0] == DOLLAR {
        if !NextPacket(a).Wait? {
          PacketExtends(a, b);
        }
      } else if a[0] != 0x2b && a[0] != 0x2d && a[0] != 0x03 {
        NextExtends(a[1..], b);
      }
    }
  }

  /** Draining part of the stream first, then the rest behind what was left over, gives the
      events and the leftover of draining it all at once. */
  lemma {:induction false} DrainExtends(a: seq<byte>, b: seq<byte>)
    ensures var first := Drain(a);
            if first.left.Wait? then
              var second := Drain(first.left.rest + b);
              Drain(a + b) == Outcome(first.events + second.events, second.left)
            else Drain(a + b) == Outcome(first.events, Raise(first.left.rest + b))
    decreases |a|
  {
    NextExtends(a, b);
    var next := NextEvent(a);
    if next.Emit? {
      DrainExtends(next.rest, b);
    } else if next.Wait? {
      var second := Drain(next.rest + b);
      assert [] + second.events == second.events;
    }
  }

  // Frames.

  lemma HexRoundTrip(v: byte)
    ensures Number(DigitChar(v / 16), DigitChar(v % 16)) == Some(v as int)
  {
  }

  lemma {:induction false} FindHash(data: seq<byte>, rest: seq<byte>)
    requires HASH !in data
    ensures Find(data + [HASH] + rest) == Some(|data|)
  {
    if data == [] {
      assert data + [HASH] + rest == [HASH] + rest;
    } else {
      FindHash(data[1..], rest);
      assert (data + [HASH] + rest)[1..] == data[1..] + [HASH] + rest;
    }
  }

  /** A framed packet with these checksum digits, followed by anything. */
  lemma FramedNext(data: seq<byte>, hi: byte, lo: byte, rest: seq<byte>)
    requires HASH !in data
    ensures NextEvent([DOLLAR] + data + [HASH, hi, lo] + rest) ==
            match Number(hi, lo) {
              case None => Raise([DOLLAR] + data + [HASH, hi, lo] + rest)
              case Some(v) => Emit(if v == Checksum(data) then Packet(data) else BadPacket, rest)
            }
  {
    var buf := [DOLLAR] + data + [HASH, hi, lo] + rest;
    FindHash([DOLLAR] + data, [hi, lo] + rest);
    assert buf == ([DOLLAR] + data) + [HASH] + ([hi, lo] + rest);
    assert buf[1..|data| + 1] == data && buf[|data| + 4..] == rest;
  }

  /** What a debugger sends: the three single-byte messages, bytes that mean nothing, frames,
      and frames with another checksum than their data has. */
  datatype Message = Plus | Minus | CtrlC | Noise(c: byte) | Framed(data: seq<byte>) | Spoiled(data: seq<byte>,
                                                  sum: byte)

  predicate Sendable(m: Message) {
    match m
    case Noise(c) => c !in {0x2b, 0x2d, 0x03, 0x24}
    case Framed(data) => 0x23 !in data
    case Spoiled(data, sum) => 0x23 !in data && sum != Sum(data) % 0x100
    case _ => true
  }

  /** A message on the wire, and the event it is. */
  function Sent(m: Message): seq<byte> {
    match m
    case Plus => [0x2b]
    case Minus => [0x2d]
    case CtrlC => [0x03]
    case Noise(c) => [c]
    case Framed(data) => Frame(data)
    case Spoiled(data, sum) => [0x24] + data + [0x23, DigitChar(sum / 16), DigitChar(sum % 16)]
  }

  function Received(m: Message): seq<Event> {
    match m
    case Plus => [Ack]
    case Minus => [Nak]
    case CtrlC => [Interrupt]
    case Noise(_) => []
    case Framed(data) => [Packet(data)]
    case Spoiled(_, _) => [BadPacket]
  }

  function AllSent(messages: seq<Message>): seq<byte> {
    if messages == [] then [] else Sent(messages[0]) + AllSent(messages[1..])
  }

  function AllReceived(messages: seq<Message>): seq<Event> {
    if messages == [] then [] else Received(messages[0]) + AllReceived(messages[1..])
  }

  /** Whatever mixture of messages is sent, their events come out in order and nothing is left. */
  lemma {:induction false} MessagesRoundTrip(messages: seq<Message>)
    requires forall m :: m in messages ==> Sendable(m)
    ensures Drain(AllSent(messages)) == Outcome(AllReceived(messages), Wait([]))
    decreases |messages|
  {
    hide Drain, NextEvent, Sent, Received, Sendable;
    if messages == [] {
      NothingSent();
    } else {
      MessagesRoundTrip(messages[1..]);
      MessageFirst(messages[0], AllSent(messages[1..]));
    }
  }

  lemma NothingSent()
    ensures Drain([]) == Outcome([], Wait([]))
  {
  }

  lemma MessageFirst(m: Message, rest: seq<byte>)
    requires Sendable(m) && Drain(rest).left == Wait([])
    ensures Drain(Sent(m) + rest) == Outcome(Received(m) + Drain(rest).events, Drain(rest).left)
  {
    var buf := Sent(m) + rest;
    hide Drain;
    match m {
      case Framed(data) => FrameFirst(data, Checksum(data), rest);
      case Spoiled(data, sum) => FrameFirst(data, sum, rest);
      case Noise(c) =>
        assert buf[1..] == rest;
        NoiseFirst(buf);
      case _ =>
        assert buf[1..] == rest;
        DrainNext(buf);
    }
  }

  lemma FrameFirst(data: seq<byte>, sum: byte, rest: seq<byte>)
    requires HASH !in data
    ensures Drain([DOLLAR] + data + [HASH, DigitChar(sum / 16), DigitChar(sum % 16)] + rest)
         == Outcome([if sum == Checksum(data) then Packet(data) else BadPacket] + Drain(rest).events, Drain(rest).left)
  {
    hide Drain, NextEvent, Number, DigitChar, Checksum;
    HexRoundTrip(sum);
    FramedNext(data, DigitChar(sum / 16), DigitChar(sum % 16), rest);
    DrainNext([DOLLAR] + data + [HASH, DigitChar(sum / 16), DigitChar(sum % 16)] + rest);
  }

  lemma DrainNext(buf: seq<byte>)
    requires NextEvent(buf).Emit?
    ensures var r := NextEvent(buf); Drain(buf) == Outcome([r.event] + Drain(r.rest).events, Drain(r.rest).left)
  {
  }

  lemma NoiseFirst(buf: seq<byte>)
    requires buf != [] && buf[0] !in {0x2b, 0x2d, 0x03, 0x24}
    ensures Drain(buf) == Outcome([] + Drain(buf[1..]).events, Drain(buf[1..]).left)
  {
    hide NextPacket;
    assert NextEvent(buf) == NextEvent(buf[1..]);
    var d := Drain(buf[1..]);
    assert [] + d.events == d.events;
  }

  // int(text, 16)

  function StripFront(s: seq<byte>): seq<byte> {
    if s != [] && (s[0] == 0x20 || 0x09 <= s[0] <= 0x0d) then StripFront(s[1..]) else s
  }

  function StripBack(s: seq<byte>): seq<byte> {
    if s != [] && (s[|s| - 1] == 0x20 || 0x09 <= s[|s| - 1] <= 0x0d) then StripBack(s[..|s| - 1]) else s
  }

  /** A sign or none, and at least one hexadecimal digit. */
  function SignedHex(t: seq<byte>): Option<int> {
    var signed := t != [] && (t[0] == 0x2b || t[0] == 0x2d);
    var digits := if signed then t[1..] else t;
    if digits == [] || exists c :: c in digits && DigitOf(c) >= 16 then None
    else Some(if signed && t[0] == 0x2d then -Denoted(digits, 16) else Denoted(digits, 16))
  }

  /** Blanks at both ends do not count; a base prefix or an underscore has no room in two
      characters. */
  function HexInt(s: seq<byte>): Option<int> { SignedHex(StripBack(StripFront(s))) }

  /** The cases of a two-character checksum are those of int(text, 16). */
  lemma NumberIsHexInt(a: byte, b: byte)
    ensures Number(a, b) == HexInt([a, b])
  {
    hide SignedHex, DigitOf, StripFront, StripBack;
    DigitsAreNoBlanks(a);
    DigitsAreNoBlanks(b);
    StripTwo(a, b);
    SignedHexNone();
    SignedHexOne(a);
    SignedHexOne(b);
    SignedHexTwo(a, b);
  }

  lemma StripTwo(a: byte, b: byte)
    ensures StripBack(StripFront([a, b])) ==
            (if IsSpace(a) then (if IsSpace(b) then [] else [b]) else if IsSpace(b) then [a] else [a, b])
  {
    assert [a, b][1..] == [b] && [b][1..] == [] && [a, b][..1] == [a] && [a][..0] == [] && [b][..0] == [];
    assert StripFront([]) == [] && StripBack([]) == [];
    assert StripFront([b]) == if IsSpace(b) then [] else [b];
    assert StripBack([b]) == if IsSpace(b) then [] else [b];
    assert StripBack([a]) == if IsSpace(a) then [] else [a];
  }

  lemma SignedHexNone()
    ensures SignedHex([]).None?
  {
  }

  lemma SignedHexOne(c: byte)
    ensures SignedHex([c]) == if DigitOf(c) < 16 then Some(DigitOf(c)) else None
  {
    DigitsAreNoBlanks(c);
    hide DigitOf;
    assert [c][1..] == [];
    if DigitOf(c) < 16 {
      DenotedOne(c);
    } else {
      assert c in [c];
    }
  }

  lemma DenotedOne(c: byte)
    requires DigitOf(c) < 16
    ensures Denoted([c], 16) == DigitOf(c)
  {
    hide DigitOf, Denoted;
    assert [] + [c] == [c];
    DenotedNone(16);
    DenotedSnoc([], c, 16);
  }

  lemma SignedHexTwo(a: byte, b: byte)
    ensures var hi, lo := DigitOf(a), DigitOf(b);
            SignedHex([a, b]) ==
              (if hi < 16 && lo < 16 then Some(hi * 16 + lo)
               else if lo < 16 && a == 0x2b then Some(lo)
               else if lo < 16 && a == 0x2d then Some(-(lo as int))
               else None)
  {
    DigitsAreNoBlanks(a);
    DigitsAreNoBlanks(b);
    hide DigitOf, Denoted;
    var s := [a, b];
    assert s[1..] == [b] && a in s && b in s && b in [b];
    if DigitOf(b) < 16 {
      DenotedOne(b);
      if DigitOf(a) < 16 {
        DenotedOne(a);
        DenotedSnoc([a], b, 16);
        assert [a] + [b] == s;
      }
    }
  }

  lemma DigitsAreNoBlanks(c: byte)
    ensures DigitOf(c) < 16 ==> !IsSpace(c) && c != 0x2b && c != 0x2d
  {
  }

  lemma {:induction false} SumUpdate(data: seq<byte>, i: nat, c: byte)
    requires i < |data|
    ensures Sum(data[i := c]) == Sum(data) - data[i] + c
  {
    if i > 0 {
      SumUpdate(data[1..], i - 1, c);
      assert data[i := c][1..] == data[1..][i - 1 := c];
    } else {
      assert data[i := c][1..] == data[1..];
    }
  }

  /** One byte of a frame's data damaged to anything but the mark that ends data is noticed. */
  lemma DamageIsNoticed(data: seq<byte>, i: nat, c: byte, rest: seq<byte>)
    requires HASH !in data && i < |data| && c != data[i] && c != HASH
    ensures NextEvent(Frame(data)[i + 1 := c] + rest) == Emit(BadPacket, rest)
  {
    SumUpdate(data, i, c);
    assert Checksum(data[i := c]) != Checksum(data);
    HexRoundTrip(Checksum(data));
    assert Frame(data)[i + 1 := c]
        == [DOLLAR] + data[i := c] + [HASH, DigitChar(Checksum(data) / 16), DigitChar(Checksum(data) % 16)];
    FramedNext(data[i := c], DigitChar(Checksum(data) / 16), DigitChar(Checksum(data) % 16), rest);
  }

  /** The two bytes behind position i of the data in a frame, where the checksum is looked for
      when that position has become the end mark. */
  function Behind(data: seq<byte>, i: nat): seq<byte>
    requires i < |data|
  {
    Frame(data)[i + 2..i + 4]
  }

  /** A byte damaged to the end mark cuts the packet short. This goes unnoticed, and the front
      of the data is taken for the packet, if and only if the two bytes behind it happen to be
      that front's checksum; when they are no number the stub raises. */
  lemma DamageToHash(data: seq<byte>, i: nat, rest: seq<byte>)
    requires HASH !in data && i < |data|
    ensures NextEvent(Frame(data)[i + 1 := HASH] + rest) ==
            match Number(Behind(data, i)[0], Behind(data, i)[1]) {
              case None => Raise(Frame(data)[i + 1 := HASH] + rest)
              case Some(v) =>
                Emit(if v == Checksum(data[..i]) then Packet(data[..i]) else BadPacket, Frame(data)[i + 4..] + rest)
            }
  {
    var f, b := Frame(data), Behind(data, i);
    var tail := f[i + 4..] + rest;
    assert f[i + 1 := HASH] + rest == [DOLLAR] + data[..i] + [HASH, b[0], b[1]] + tail by {
      Cut(f, i, rest);
      assert f[1..i + 1] == data[..i];
    }
    FramedNext(data[..i], b[0], b[1], tail);
  }

  lemma Cut(f: seq<byte>, i: nat, rest: seq<byte>)
    requires i + 4 <= |f|
    ensures f[i + 1 := HASH] + rest == [f[0]] + f[1..i + 1] + [HASH, f[i + 2], f[i + 3]] + (f[i + 4..] + rest)
  {
  }

  /** The data aX61 with its second byte damaged: 61 is the checksum of the byte a, and a
      packet of one byte is reported. */
  lemma CutUnnoticed(rest: seq<byte>)
    ensures var data := [0x61, 0x58, 0x36, 0x31];
            NextEvent(Frame(data)[2 := HASH] + rest) == Emit(Packet([0x61]), Frame(data)[5..] + rest)
  {
    var data: seq<byte> := [0x61, 0x58, 0x36, 0x31];
    DamageToHash(data, 1, rest);
    assert Behind(data, 1) == [0x36, 0x31];
    assert data[..1] == [0x61] && [0x61][1..] == [];
    assert Sum([0x61]) == 0x61 + Sum([]);
  }

  // The class, and any schedule of feeding and polling it.

  datatype Call = Feed(data: seq<byte>) | Poll

  function Fed(calls: seq<Call>): seq<byte> {
    if calls == [] then []
    else Fed(calls[..|calls| - 1]) + if calls[|calls| - 1].Feed? then calls[|calls| - 1].data else []
  }

  class Stream {
    var buf: seq<byte>

    constructor ()
      ensures buf == []
    {
      buf := [];
    }

    method Feed(data: seq<byte>)
      modifies this
      ensures buf == old(buf) + data
    {
      buf := buf + data;
    }

    method Next() returns (r: Next)
      modifies this
      ensures r == NextEvent(old(buf)) && buf == r.rest
      decreases |buf|
    {
      if |buf| == 0 {
        return Wait(buf);
      }
      var first := buf[0];
      if first == 0x2b {
        buf := buf[1..];
        return Emit(Ack, buf);
      }
      if first == 0x2d {
        buf := buf[1..];
        return Emit(Nak, buf);
      }
      if first == 0x03 {
        buf := buf[1..];
        return Emit(Interrupt, buf);
      }
      if first == DOLLAR {
        var end := Find(buf);
        if end.None? || |buf| < end.value + 3 {
          return Wait(buf);
        }
        var data := buf[1..end.value];
        var theirs := Number(buf[end.value + 1], buf[end.value + 2]);
        if theirs.None? {
          return Raise(buf);
        }
        buf := buf[end.value + 3..];
        if theirs.value != Checksum(data) {
          return Emit(BadPacket, buf);
        }
        return Emit(Packet(data), buf);
      }
      buf := buf[1..];
      r := Next();
    }

    /** However feeds and polls are interleaved, what was reported, followed by what draining
        the buffer now would report, is what the whole stream contains, and the parser ends
        in the same place. */
    method Session(calls: seq<Call>) returns (events: seq<Event>)
      requires buf == []
      modifies this
      ensures Drain(Fed(calls)) == Outcome(events + Drain(buf).events, Drain(buf).left)
    {
      hide Drain, NextEvent, Fed;
      events := [];
      assert Fed([]) == [] by { NoCalls(); }
      assert [] + Drain([]).events == Drain([]).events;
      for i := 0 to |calls|
        invariant Drain(Fed(calls[..i])) == Outcome(events + Drain(buf).events, Drain(buf).left)
      {
        OneMore(calls, i);
        match calls[i] {
          case Feed(data) =>
            FeedKeeps(Fed(calls[..i]), events, buf, data);
            Feed(data);
          case Poll =>
            PollKeeps(buf);
            ghost var b := buf;
            var r := Next();
            if r.Emit? {
              assert events + ([r.event] + Drain(buf).events) == events + [r.event] + Drain(buf).events;
              events := events + [r.event];
            }
        }
      }
      assert calls[..|calls|] == calls;
    }
  }

  lemma NoCalls()
    ensures Fed([]) == []
  {
  }

  lemma OneMore(calls: seq<Call>, i: nat)
    requires i < |calls|
    ensures Fed(calls[..i + 1]) == if calls[i].Feed? then Fed(calls[..i]) + calls[i].data else Fed(calls[..i])
  {
    assert calls[..i + 1][..i] == calls[..i];
  }

  /** Polling moves one event from the buffer to the caller. */
  lemma PollKeeps(buf: seq<byte>)
    ensures var r := NextEvent(buf);
            if r.Emit? then Drain(buf) == Outcome([r.event] + Drain(r.rest).events, Drain(r.rest).left)
            else Drain(r.rest) == Drain(buf)
  {
    var r := NextEvent(buf);
    if r.Wait? {
      NextExtends(buf, []);
      assert buf + [] == buf && r.rest + [] == r.rest;
    } else if r.Raise? {
      RaiseStays(buf);
    }
  }

  /** After an error the buffer raises again and again. */
  lemma {:induction false} RaiseStays(buf: seq<byte>)
    requires NextEvent(buf).Raise?
    ensures NextEvent(NextEvent(buf).rest) == NextEvent(buf)
  {
    if buf[0] != DOLLAR {
      RaiseStays(buf[1..]);
    }
  }

  /** Feeding extends the whole stream and the buffer alike. */
  lemma FeedKeeps(all: seq<byte>, events: seq<Event>, buf: seq<byte>, data: seq<byte>)
    requires Drain(all) == Outcome(events + Drain(buf).events, Drain(buf).left)
    ensures Drain(all + data) == Outcome(events + Drain(buf + data).events, Drain(buf + data).left)
  {
    hide Drain;
    DrainExtends(all, data);
    DrainExtends(buf, data);
    var left := Drain(buf).left;
    if left.Wait? {
      var second := Drain(left.rest + data);
      assert events + Drain(buf).events + second.events == events + (Drain(buf).events + second.events);
    }
  }
}
