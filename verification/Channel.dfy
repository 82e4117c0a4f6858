/**
 The Takion data channel of lib/src/takion.c: the formats of DATA and DATA_ACK
 payloads, what a receiver makes of a payload, and the two message handlers.
 */
module ChannelSpec {
  import opened Common
  import opened SeqNum
  import RQ = ReorderSpec

  const QUEUE_SIZE_EXP := 8
  const DATA_HEADER_SIZE := 9
  const DATA_CONT_HEADER_SIZE := 8
  const DATA_ACK_SIZE := 0xc
  const A_RWND := 0x400000
  const PROTOBUF: byte := 0
  const RUMBLE: byte := 7
  const PAD_INFO: byte := 9
  const TRIGGER_EFFECTS: byte := 11

  function Be16(n: nat): (b: seq<byte>)
    requires n < 0x1_0000
    ensures |b| == 2
  {
    [n / 0x100, n % 0x100]
  }

  function Be32(n: nat): (b: seq<byte>)
    requires n < 0x1_0000_0000
    ensures |b| == 4
  {
    Be16(n / 0x1_0000) + Be16(n % 0x1_0000)
  }

  function FromBe16(b: seq<byte>): (n: nat)
    requires |b| == 2
    ensures n < 0x1_0000
  {
    (b[0] as int) * 0x100 + b[1]
  }

  function FromBe32(b: seq<byte>): (n: nat)
    requires |b| == 4
    ensures n < 0x1_0000_0000
  {
    FromBe16(b[..2]) * 0x1_0000 + FromBe16(b[2..])
  }

  lemma Be32RoundTrip(n: nat)
    requires n < 0x1_0000_0000
    ensures FromBe32(Be32(n)) == n
  {
    assert Be32(n)[..2] == Be16(n / 0x1_0000) && Be32(n)[2..] == Be16(n % 0x1_0000);
  }

  /** `isCont`: sent by send_message_data_cont, whose header has no data type. */
  datatype Message = Message(isCont: bool, channel: nat, content: seq<byte>)

  predicate WellFormed(m: Message) {
    m.channel < 0x1_0000
  }

  /** The DATA payload that carries a message under a sequence number. */
  function DataPayload(m: Message, seqNum: nat): (p: seq<byte>)
    requires WellFormed(m) && seqNum < 0x1_0000_0000
    ensures |p| == (if m.isCont then DATA_CONT_HEADER_SIZE else DATA_HEADER_SIZE) + |m.content|
  {
    var typeField: seq<byte> := if m.isCont then [] else [PROTOBUF];
    Be32(seqNum) + Be16(m.channel) + [0, 0] + typeField + m.content
  }

  function SeqNumOf(payload: seq<byte>): (n: nat)
    requires |payload| >= 4
    ensures n < 0x1_0000_0000
  {
    FromBe32(payload[..4])
  }

  lemma SeqNumRoundTrip(m: Message, seqNum: nat)
    requires WellFormed(m) && seqNum < 0x1_0000_0000
    ensures SeqNumOf(DataPayload(m, seqNum)) == seqNum
  {
    assert DataPayload(m, seqNum)[..4] == Be32(seqNum);
    Be32RoundTrip(seqNum);
  }

  /** Where the fields of a DATA payload stand: all big-endian, the type only in ordinary messages. */
  lemma PayloadBytes(m: Message, seqNum: nat)
    requires WellFormed(m) && seqNum < 0x1_0000_0000
    ensures var p := DataPayload(m, seqNum);
            && p[0] as int * 0x100_0000 + p[1] as int * 0x1_0000 + p[2] as int * 0x100 + p[3] as int == seqNum
            && p[4] as int * 0x100 + p[5] as int == m.channel
            && p[6] == 0 && p[7] == 0
            && if m.isCont then p[8..] == m.content else p[8] == 0 && p[9..] == m.content
  {
    var b := Be32(seqNum);
    assert b == Be16(seqNum / 0x1_0000) + Be16(seqNum % 0x1_0000);
  }

  lemma SeqNumBytes(p: seq<byte>)
    requires |p| >= 4
    ensures SeqNumOf(p) == p[0] as int * 0x100_0000 + p[1] as int * 0x1_0000 + p[2] as int * 0x100 + p[3] as int
  {
  }

  datatype Event = Event(dataType: byte, content: seq<byte>)

  predicate KnownType(t: byte) {
    t == PROTOBUF || t == RUMBLE || t == TRIGGER_EFFECTS || t == PAD_INFO
  }

  /** The event a pulled payload raises; `ping` is the handshake mode that accepts continuations. */
  function EventOf(payload: seq<byte>, ping: bool): Option<Event> {
    if |payload| < DATA_HEADER_SIZE then None
    else
      var t := payload[8];
      if KnownType(t) then Some(Event(t, payload[9..]))
      else if ping then Some(Event(t, payload[8..]))
      else None
  }

  /**
   Whatever stands in front of it, the ninth byte decides: for 0, 7, 9 and 11 it is the type
   of the event, whose content follows; for all others it begins the content, which is
   handed on only in ping mode.
   */
  lemma TypedArrives(header: seq<byte>, t: byte, content: seq<byte>, ping: bool)
    requires |header| == 8
    ensures EventOf(header + [t] + content, ping) ==
            if t in {0, 7, 9, 11} then Some(Event(t, content))
            else if ping then Some(Event(t, [t] + content))
            else None
  {
    var p := header + [t] + content;
    assert p[8] == t && p[9..] == content && p[8..] == [t] + content;
  }

  /** An ordinary message always arrives as it was sent. */
  lemma OrdinaryArrives(m: Message, seqNum: nat, ping: bool)
    requires WellFormed(m) && seqNum < 0x1_0000_0000 && !m.isCont
    ensures EventOf(DataPayload(m, seqNum), ping) == Some(Event(PROTOBUF, m.content))
  {
    assert DataPayload(m, seqNum)[9..] == m.content;
  }

  /**
   A continuation's content arrives exactly in ping mode, and if it does not begin with a
   byte that the receiver takes for a data type; an empty one never arrives.
   */
  lemma ContinuationArrives(m: Message, seqNum: nat, ping: bool)
    requires WellFormed(m) && seqNum < 0x1_0000_0000 && m.isCont
    ensures var e := EventOf(DataPayload(m, seqNum), ping);
            e.Some? && e.value.content == m.content <==>
            ping && m.content != [] && !KnownType(m.content[0])
  {
    var p := DataPayload(m, seqNum);
    assert p[8..] == m.content;
    if m.content != [] {
      assert p[8] == m.content[0];
      assert p[9..] == m.content[1..];
    }
  }

  function AckPayload(seqNum: nat): (p: seq<byte>)
    requires seqNum < 0x1_0000_0000
    ensures |p| == DATA_ACK_SIZE
  {
    Be32(seqNum) + Be32(A_RWND) + Be16(0) + Be16(0)
  }

  /** The cumulative number of a DATA_ACK payload, unless the payload is rejected. */
  function AckOf(p: seq<byte>): Option<nat> {
    if |p| != DATA_ACK_SIZE then None
    else if |p| != FromBe16(p[8..10]) * 4 + DATA_ACK_SIZE then None
    else Some(FromBe32(p[..4]))
  }

  /** An acknowledgement: the number, the window of 0x400000 bytes, no gaps and no duplicates. */
  lemma AckBytes(n: nat)
    requires n < 0x1_0000_0000
    ensures var p := AckPayload(n);
            && p[0] as int * 0x100_0000 + p[1] as int * 0x1_0000 + p[2] as int * 0x100 + p[3] as int == n
            && p[4..] == [0, 0x40, 0, 0, 0, 0, 0, 0]
  {
    var b := Be32(n);
    assert b == Be16(n / 0x1_0000) + Be16(n % 0x1_0000);
  }

  lemma AckRoundTrip(n: nat)
    requires n < 0x1_0000_0000
    ensures AckOf(AckPayload(n)) == Some(n)
  {
    var p := AckPayload(n);
    assert p[..4] == Be32(n) && p[8..10] == Be16(0);
    Be32RoundTrip(n);
  }

  type Queue = RQ.Queue<seq<byte>>

  /** takion_flush_data_queue: pulls as long as the next number is there. */
  function Flush(q: Queue): Queue
    decreases |q.slots|
  {
    if RQ.CanPull(q) then Flush(RQ.Pull(q)) else q
  }

  /** A flush only pulls: it moves the window over a prefix that is there, and leaves nothing to pull. */
  lemma {:induction false} FlushPulls(q: Queue)
    ensures var r := Flush(q);
            && !RQ.CanPull(r)
            && (r.begin > q.begin <==> RQ.CanPull(q)) && r.begin >= q.begin
            && r.begin + |r.slots| == q.begin + |q.slots|
            && r.begin - q.begin == |r.pulled| - |q.pulled| && q.pulled <= r.pulled
            && r.slots == q.slots[r.begin - q.begin..] && r.dropped == q.dropped
            && forall i :: |q.pulled| <= i < |r.pulled| ==>
                 r.pulled[i].0 == q.begin + (i - |q.pulled|) && q.slots[i - |q.pulled|] == Some(r.pulled[i].1)
    decreases |q.slots|
  {
    if RQ.CanPull(q) {
      var p := RQ.Pull(q);
      FlushPulls(p);
      var r := Flush(p);
      assert q.slots[1..][r.begin - p.begin..] == q.slots[r.begin - q.begin..];
      forall i | |q.pulled| <= i < |r.pulled|
        ensures r.pulled[i].0 == q.begin + (i - |q.pulled|) && q.slots[i - |q.pulled|] == Some(r.pulled[i].1)
      {
        if i == |q.pulled| {
          assert r.pulled[i] == p.pulled[i];
        } else {
          assert p.slots[i - |p.pulled|] == q.slots[i - |q.pulled|];
        }
      }
    }
  }

  /** The events of pulled payloads, in order. */
  function Events(pulled: seq<(int, seq<byte>)>, ping: bool): seq<Event> {
    if pulled == [] then []
    else
      var e := EventOf(pulled[|pulled| - 1].1, ping);
      Events(pulled[..|pulled| - 1], ping) + (if e.Some? then [e.value] else [])
  }

  /** The queue after a DATA payload was handled; a payload without a full header is ignored. */
  function Receive(q: Queue, payload: seq<byte>): Queue
    requires |q.slots| <= Pow2(QUEUE_SIZE_EXP)
  {
    if |payload| < DATA_HEADER_SIZE then q
    else Flush(RQ.Push(q, Pow2(QUEUE_SIZE_EXP), RQ.DropEnd, Unwrap(W32, q.begin, SeqNumOf(payload)), payload))
  }
}

module Channel {
  import opened Common
  import opened SeqNum
  import opened ChannelSpec
  import RQ = ReorderSpec
  import Ring = ReorderQueue
  import SB = SendBuffer
  import SS = SendSpec

  /** The receiving half: the reorder queue, the events raised and the acks sent, in order. */
  class Receiver {
    const queue: Ring.Queue<seq<byte>>
    const ping: bool
    var events: seq<Event>
    var acks: seq<seq<byte>>

    ghost predicate Valid()
      reads this, queue, queue.queue
    {
      && queue.Valid() && queue.width == W32 && queue.sizeExp == QUEUE_SIZE_EXP && queue.strategy == RQ.DropEnd
      && events == Events(queue.model.pulled, ping)
    }

    constructor (start: nat, ping: bool)
      requires start < Space(W32)
      ensures Valid() && queue.model == RQ.Empty(start) && this.ping == ping && acks == []
      ensures fresh(queue) && fresh(queue.queue)
    {
      queue := new Ring.Queue<seq<byte>>(W32, QUEUE_SIZE_EXP, start, RQ.DropEnd);
      this.ping := ping;
      events, acks := [], [];
    }

    method RaiseEvent(payload: seq<byte>, ghost pulled: seq<(int, seq<byte>)>, ghost s: int)
      requires events == Events(pulled, ping)
      modifies this`events
      ensures events == Events(pulled + [(s, payload)], ping)
    {
      assert (pulled + [(s, payload)])[..|pulled|] == pulled;
      var e := EventOf(payload, ping);
      events := events + if e.Some? then [e.value] else [];
    }

    /** Pulls everything available, raises its events and acknowledges the last number pulled. */
    method FlushDataQueue()
      requires Valid()
      modifies this, queue
      ensures Valid() && queue.queue == old(queue.queue)
      ensures queue.model == Flush(old(queue.model))
      ensures var q := queue.model;
              acks == if RQ.CanPull(old(queue.model))
                      then old(acks) + [AckPayload((q.begin - 1) % Space(W32))] else old(acks)
    {
      hide EventOf, Events, queue.Valid, AckPayload;
      var seqNum: nat, ack := 0, false;
      ghost var q0 := queue.model;
      while true
        invariant Valid() && queue.queue == old(queue.queue) && acks == old(acks)
        invariant Flush(queue.model) == Flush(q0)
        invariant !ack ==> queue.model == q0
        invariant ack ==> RQ.CanPull(q0) && seqNum == (queue.model.begin - 1) % Space(W32)
        decreases queue.count
      {
        ghost var q := queue.model;
        var pulled, wire, entry := queue.Pull();
        if !pulled {
          break;
        }
        seqNum, ack := wire, true;
        WireIs(wire, q.begin);
        RaiseEvent(entry.value, q.pulled, q.begin);
      }
      if ack {
        acks := acks + [AckPayload(seqNum)];
      }
    }

    lemma WireIs(wire: nat, s: int)
      requires wire < Space(W32) && wire % Space(W32) == s % Space(W32)
      ensures wire == s % Space(W32)
    {
    }

    /** A DATA payload arrives. */
    method HandleData(payload: seq<byte>) returns (aborted: bool)
      requires Valid()
      modifies this, queue, queue.queue
      ensures Valid()
      ensures aborted <==> |payload| >= DATA_HEADER_SIZE &&
                           Ring.AssertionFails(W32, old(queue.begin), old(queue.count), SeqNumOf(payload))
      ensures !aborted ==> queue.model == Receive(old(queue.model), payload)
      ensures acks == if aborted || queue.model.begin == old(queue.model.begin) then old(acks)
                      else old(acks) + [AckPayload((queue.model.begin - 1) % Space(W32))]
    {
      hide EventOf, Events, AckPayload, SeqNumOf, Unwrap, Ring.AssertionFails, queue.Valid, RQ.CanPull, Flush;
      aborted := false;
      if |payload| < DATA_HEADER_SIZE {
        return;
      }
      aborted := queue.Push(SeqNumOf(payload), payload);
      if !aborted {
        FlushPulls(queue.model);
        FlushDataQueue();
      }
    }
  }

  /** The sending half: the counter and the retransmit buffer. */
  class Sender {
    const buffer: SB.Buffer
    var seqNumLocal: nat
    var ackEvents: seq<nat>

    ghost predicate Valid()
      reads this, buffer, buffer.packets
    {
      buffer.Valid() && seqNumLocal < Space(W32)
    }

    constructor (initial: nat)
      requires initial < Space(W32)
      ensures Valid() && seqNumLocal == initial && buffer.Contents() == [] && ackEvents == []
      ensures fresh(buffer) && fresh(buffer.packets)
    {
      buffer := new SB.Buffer(SS.BUFFER_SIZE);
      seqNumLocal, ackEvents := initial, [];
    }

    /** The first of the two sections that hold a lock: the next number is taken. */
    method TakeNumber() returns (seqNum: nat)
      requires Valid()
      modifies this`seqNumLocal
      ensures Valid() && seqNum == old(seqNumLocal) && seqNumLocal == (old(seqNumLocal) + 1) % Space(W32)
    {
      seqNum := seqNumLocal;
      seqNumLocal := if seqNumLocal + 1 == Space(W32) then 0 else seqNumLocal + 1;
    }

    /** The second: the transmitted packet is kept if there is room and its number is not there. */
    method Store(seqNum: nat, payload: seq<byte>, now: nat)
      requires Valid()
      modifies buffer, buffer.packets
      ensures Valid()
      ensures buffer.Contents() ==
              if old(buffer.count) < buffer.packets.Length && !SS.HasNumber(old(buffer.Contents()), seqNum)
              then old(buffer.Contents()) + [SS.Packet(seqNum, 0, now, payload)]
              else old(buffer.Contents())
    {
      var _ := buffer.Push(seqNum, payload, now);
    }

    /**
     The number is consumed whether or not the socket takes the packet, but only a packet
     that went out is kept for retransmission, and only if there is room for it.
     */
    method Send(m: Message, socketOk: bool, now: nat) returns (payload: seq<byte>)
      requires Valid() && WellFormed(m)
      modifies this, buffer, buffer.packets
      ensures Valid()
      ensures payload == DataPayload(m, old(seqNumLocal))
      ensures seqNumLocal == (old(seqNumLocal) + 1) % Space(W32)
      ensures buffer.Contents() ==
              if socketOk && old(buffer.count) < buffer.packets.Length
                 && !SS.HasNumber(old(buffer.Contents()), old(seqNumLocal))
              then old(buffer.Contents()) + [SS.Packet(old(seqNumLocal), 0, now, payload)]
              else old(buffer.Contents())
    {
      var seqNum := TakeNumber();
      payload := DataPayload(m, seqNum);
      if socketOk {
        Store(seqNum, payload, now);
      }
    }

    /** A DATA_ACK payload arrives: every packet it covers leaves the buffer and raises an event. */
    method HandleDataAck(p: seq<byte>)
      requires Valid()
      modifies this, buffer, buffer.packets
      ensures Valid() && seqNumLocal == old(seqNumLocal)
      ensures match AckOf(p)
              case None => buffer.Contents() == old(buffer.Contents()) && ackEvents == old(ackEvents)
              case Some(a) =>
                && buffer.Contents() == SS.Kept(old(buffer.Contents()), a)
                && ackEvents == old(ackEvents) + SS.Removed(old(buffer.Contents()), a)
    {
      if |p| != DATA_ACK_SIZE || |p| != FromBe16(p[8..10]) * 4 + DATA_ACK_SIZE {
        return;
      }
      var acked := new nat[buffer.packets.Length];
      var n := buffer.Ack(FromBe32(p[..4]), acked);
      RaiseAckEvents(acked, n);
    }

    /** One DATA_ACK event for each number reported. */
    method RaiseAckEvents(acked: array<nat>, n: nat)
      requires n <= acked.Length
      modifies this`ackEvents
      ensures ackEvents == old(ackEvents) + acked[..n]
    {
      var i := 0;
      while i < n
        invariant 0 <= i <= n && ackEvents == old(ackEvents) + acked[..i]
      {
        assert acked[..i + 1] == acked[..i] + [acked[i]];
        ackEvents := ackEvents + [acked[i]];
        i := i + 1;
      }
    }
  }
}
