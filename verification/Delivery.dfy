/**
 One direction of a Takion data channel as a distributed system: the sending half of one
 endpoint, the receiving half of its peer, and a network that may lose, duplicate and
 reorder. The network is a set: a member may be delivered at any time and any number of
 times, and may be lost at any time. A send is three steps, because the source takes the
 number, transmits and stores the packet under separate locks; any number of sends may be
 in between at once.
 */
module Delivery {
  import opened Common
  import opened SeqNum
  import opened ChannelSpec
  import RQ = ReorderSpec
  import Ring = ReorderQueue
  import SS = SendSpec

  /**
   `sent` is the sender's history: message `i` was given number `isn + i`. `taken` are the
   messages that have a number but were not transmitted yet, `transmitted` those not stored
   yet. `confirmed` is what acknowledgements (not giving up) have removed from the
   retransmit buffer.
   */
  datatype State = State(
    isn: nat,
    sent: seq<Message>,
    taken: set<nat>,
    transmitted: set<nat>,
    buffer: seq<SS.Packet>,
    confirmed: set<nat>,
    data: set<seq<byte>>,
    acks: set<seq<byte>>,
    queue: Queue,
    aborted: bool)

  datatype Step =
    | Take(m: Message)
    | Transmit(i: nat, socketOk: bool)
    | Store(i: nat, now: nat)
    | ResendStep(i: nat)
    | GiveUpStep(i: nat)
    | Lose(d: seq<byte>)
    | DataArrives(d: seq<byte>)
    | AckArrives(a: seq<byte>)

  function Init(isn: nat): State {
    State(isn, [], {}, {}, [], {}, {}, {}, RQ.Empty(isn), false)
  }

  /** The wire number of message `i`. */
  function Number(isn: nat, i: nat): (n: nat)
    ensures n < Space(W32) && n % Space(W32) == (isn + i) % Space(W32)
  {
    (isn + i) % Space(W32)
  }

  predicate HasPayload(s: State, i: nat) {
    i < |s.sent| && WellFormed(s.sent[i])
  }

  /** What message `i` looks like on the wire. */
  function Payload(s: State, i: nat): seq<byte>
    requires HasPayload(s, i)
  {
    DataPayload(s.sent[i], Number(s.isn, i))
  }

  predicate Enabled(s: State, step: Step) {
    match step
    case Take(m) => WellFormed(m)
    case Transmit(i, _) => i in s.taken && HasPayload(s, i)
    case Store(i, _) => i in s.transmitted && HasPayload(s, i)
    case ResendStep(i) => i < |s.buffer|
    case GiveUpStep(i) => i < |s.buffer|
    case Lose(_) => true
    case DataArrives(d) => d in s.data && !s.aborted
    case AckArrives(a) => a in s.acks
  }

  /** Whether the receiver's assertion fails on a payload. */
  predicate Aborts(q: Queue, d: seq<byte>) {
    |d| >= DATA_HEADER_SIZE && Ring.AssertionFails(W32, q.begin % Space(W32), |q.slots|, SeqNumOf(d))
  }

  function Next(s: State, step: Step): State
    requires |s.queue.slots| <= Pow2(QUEUE_SIZE_EXP) && Enabled(s, step)
  {
    match step
    case Take(m) =>
      s.(sent := s.sent + [m], taken := s.taken + {|s.sent|})
    case Transmit(i, socketOk) =>
      if socketOk then
        s.(taken := s.taken - {i}, transmitted := s.transmitted + {i}, data := s.data + {Payload(s, i)})
      else
        s.(taken := s.taken - {i})
    case Store(i, now) =>
      s.(transmitted := s.transmitted - {i},
         buffer := if |s.buffer| < SS.BUFFER_SIZE && !SS.HasNumber(s.buffer, Number(s.isn, i)) then
                     s.buffer + [SS.Packet(Number(s.isn, i), 0, now, Payload(s, i))]
                   else s.buffer)
    case ResendStep(i) =>
      s.(data := s.data + {s.buffer[i].buf})
    case GiveUpStep(i) =>
      s.(buffer := SS.Kept(s.buffer, s.buffer[i].seqNum))
    case Lose(d) =>
      s.(data := s.data - {d})
    case DataArrives(d) =>
      if Aborts(s.queue, d) then s.(aborted := true)
      else
        var q := Receive(s.queue, d);
        s.(queue := q,
           acks := if q.begin == s.queue.begin then s.acks
                   else s.acks + {AckPayload((q.begin - 1) % Space(W32))})
    case AckArrives(a) =>
      match AckOf(a)
      case None => s
      case Some(n) =>
        s.(buffer := SS.Kept(s.buffer, n),
           confirmed := s.confirmed + (set k | k in SS.Removed(s.buffer, n)))
  }

  lemma NextKeepsCap(s: State, step: Step)
    requires |s.queue.slots| <= Pow2(QUEUE_SIZE_EXP) && Enabled(s, step)
    ensures |Next(s, step).queue.slots| <= Pow2(QUEUE_SIZE_EXP)
  {
    if step.DataArrives? && |step.d| >= DATA_HEADER_SIZE {
      FlushPulls(RQ.Push(s.queue, Pow2(QUEUE_SIZE_EXP), RQ.DropEnd,
                         Unwrap(W32, s.queue.begin, SeqNumOf(step.d)), step.d));
    }
  }

  /** The state after a run; a step that is not possible is skipped. */
  function Run(isn: nat, steps: seq<Step>): (s: State)
    ensures |s.queue.slots| <= Pow2(QUEUE_SIZE_EXP)
  {
    if steps == [] then Init(isn)
    else
      var s, step := Run(isn, steps[..|steps| - 1]), steps[|steps| - 1];
      if Enabled(s, step) then
        NextKeepsCap(s, step);
        Next(s, step)
      else s
  }

  /** `d` is the payload of message `i`. */
  ghost predicate Carries(s: State, i: int, d: seq<byte>) {
    0 <= i < |s.sent| && WellFormed(s.sent[i]) && d == DataPayload(s.sent[i], Number(s.isn, i))
  }

  /** How many messages the receiver has pulled. */
  function Progress(s: State): int {
    s.queue.begin - s.isn
  }

  ghost predicate IsData(s: State, d: seq<byte>) {
    exists i :: Carries(s, i, d)
  }

  /** A buffered packet holds a message under that message's own number. */
  ghost predicate IsBuffered(s: State, p: SS.Packet) {
    exists i :: Carries(s, i, p.buf) && p.seqNum == Number(s.isn, i)
  }

  /** `n` is the number of a message the receiver has pulled. */
  ghost predicate IsPulled(s: State, n: nat) {
    exists i: nat :: i < |s.queue.pulled| && n == Number(s.isn, i)
  }

  ghost predicate IsAck(s: State, a: seq<byte>) {
    exists n: nat :: n < Space(W32) && IsPulled(s, n) && a == AckPayload(n)
  }

  /** What waits at, or was pulled from, place `i` of the receiver's stream is message `i`. */
  ghost predicate ReceiverAgrees(s: State, q: Queue) {
    && 0 <= q.begin - s.isn == |q.pulled|
    && (forall j :: 0 <= j < |q.slots| && q.slots[j].Some? ==>
          Carries(s, q.begin - s.isn + j, q.slots[j].value) && |q.slots[j].value| >= DATA_HEADER_SIZE)
    && (forall i :: 0 <= i < |q.pulled| ==>
          && q.pulled[i].0 == s.isn + i
          && Carries(s, i, q.pulled[i].1) && |q.pulled[i].1| >= DATA_HEADER_SIZE)
  }

  ghost predicate Inv(s: State) {
    && !s.aborted
    && (forall m :: m in s.sent ==> WellFormed(m))
    && (forall i :: i in s.taken || i in s.transmitted ==> i < |s.sent|)
    && (forall d :: d in s.data ==> IsData(s, d))
    && |s.buffer| <= SS.BUFFER_SIZE && (forall p :: p in s.buffer ==> IsBuffered(s, p))
    && ReceiverAgrees(s, s.queue) && !RQ.CanPull(s.queue)
    && (forall a :: a in s.acks ==> IsAck(s, a))
    && (forall n :: n in s.confirmed ==> IsPulled(s, n))
  }

  /** Nothing that was true of the history or of the pulled messages becomes false. */
  lemma Monotone(s: State, t: State)
    requires s.isn == t.isn && s.sent <= t.sent && |s.queue.pulled| <= |t.queue.pulled|
    ensures forall d :: IsData(s, d) ==> IsData(t, d)
    ensures forall p :: IsBuffered(s, p) ==> IsBuffered(t, p)
    ensures forall n :: IsPulled(s, n) ==> IsPulled(t, n)
    ensures forall a :: IsAck(s, a) ==> IsAck(t, a)
    ensures forall q :: ReceiverAgrees(s, q) ==> ReceiverAgrees(t, q)
  {
    forall i, d | Carries(s, i, d) ensures Carries(t, i, d) {
    }
    forall d | IsData(s, d) ensures IsData(t, d) {
      var i :| Carries(s, i, d);
      assert Carries(t, i, d);
    }
    forall p | IsBuffered(s, p) ensures IsBuffered(t, p) {
      var i :| Carries(s, i, p.buf) && p.seqNum == Number(s.isn, i);
      assert Carries(t, i, p.buf);
    }
    forall n | IsPulled(s, n) ensures IsPulled(t, n) {
    }
    forall a | IsAck(s, a) ensures IsAck(t, a) {
      var n: nat :| n < Space(W32) && IsPulled(s, n) && a == AckPayload(n);
      assert IsPulled(t, n);
    }
  }

  lemma SendKeepsInv(s: State, step: Step)
    requires |s.queue.slots| <= Pow2(QUEUE_SIZE_EXP)
    requires Inv(s) && (step.Take? || step.Transmit? || step.Store?) && Enabled(s, step)
    ensures Inv(Next(s, step))
  {
    var t := Next(s, step);
    Monotone(s, t);
    if step.Transmit? {
      assert IsData(t, Payload(s, step.i)) by { assert Carries(t, step.i, Payload(s, step.i)); }
    } else if step.Store? {
      var p := SS.Packet(Number(s.isn, step.i), 0, step.now, Payload(s, step.i));
      assert IsBuffered(t, p) by { assert Carries(t, step.i, p.buf); }
    }
  }

  lemma BufferKeepsInv(s: State, step: Step)
    requires |s.queue.slots| <= Pow2(QUEUE_SIZE_EXP)
    requires Inv(s) && (step.ResendStep? || step.GiveUpStep? || step.Lose?) && Enabled(s, step)
    ensures Inv(Next(s, step))
  {
    var t := Next(s, step);
    Monotone(s, t);
    if step.Lose? {
      return;
    }
    var p := s.buffer[step.i];
    assert p in s.buffer;
    if step.ResendStep? {
      var i :| Carries(s, i, p.buf) && p.seqNum == Number(s.isn, i);
      assert IsData(t, p.buf) by { assert Carries(t, i, p.buf); }
    } else {
      SS.KeptAndRemoved(s.buffer, p.seqNum);
      forall k | k in t.buffer ensures IsBuffered(t, k) {
        SS.KeptExactly(s.buffer, p.seqNum, k);
      }
    }
  }

  /** With fewer than 2^31 messages, a payload's wire number identifies its message. */
  lemma NumberIdentifies(s: State, i: int, d: seq<byte>)
    requires Carries(s, i, d) && |s.sent| < Half(W32)
    requires ReceiverAgrees(s, s.queue)
    ensures Unwrap(W32, s.queue.begin, SeqNumOf(d)) == s.isn + i
    ensures !Aborts(s.queue, d)
    ensures |s.queue.pulled| <= |s.sent|
  {
    hide DataPayload, SeqNumOf;
    SeqNumRoundTrip(s.sent[i], Number(s.isn, i));
    var p := |s.queue.pulled|;
    assert p > 0 ==> Carries(s, p - 1, s.queue.pulled[p - 1].1);
    NearbyNumber(s.queue.begin, s.isn + i);
  }

  lemma NearbyNumber(begin: int, x: int)
    requires -Half(W32) < x - begin < Half(W32)
    ensures Unwrap(W32, begin, x % Space(W32)) == x
    ensures (x % Space(W32) - begin % Space(W32)) % Space(W32) != Half(W32)
  {
    UnwrapRecovers(W32, begin, x);
  }

  lemma PushEndKeeps(q: Queue, s: int, d: seq<byte>)
    requires |q.slots| <= Pow2(QUEUE_SIZE_EXP)
    ensures var r := RQ.Push(q, Pow2(QUEUE_SIZE_EXP), RQ.DropEnd, s, d); r.begin == q.begin && r.pulled == q.pulled
  {
  }

  /** Pushing message `i` under its number keeps the receiver in agreement with the sender. */
  lemma PushAgrees(s: State, q: Queue, i: int, d: seq<byte>)
    requires ReceiverAgrees(s, q) && |q.slots| <= Pow2(QUEUE_SIZE_EXP)
    requires Carries(s, i, d) && |d| >= DATA_HEADER_SIZE
    ensures ReceiverAgrees(s, RQ.Push(q, Pow2(QUEUE_SIZE_EXP), RQ.DropEnd, s.isn + i, d))
  {
  }

  /** What a flush leaves in the window was there. */
  lemma FlushLeaves(s: State, q: Queue)
    requires ReceiverAgrees(s, q)
    ensures var r := Flush(q);
            forall j :: 0 <= j < |r.slots| && r.slots[j].Some? ==>
              Carries(s, r.begin - s.isn + j, r.slots[j].value) && |r.slots[j].value| >= DATA_HEADER_SIZE
  {
    hide Carries, Flush, ReceiverAgrees;
    var r := Flush(q);
    forall j | 0 <= j < |r.slots| && r.slots[j].Some?
      ensures Carries(s, r.begin - s.isn + j, r.slots[j].value) && |r.slots[j].value| >= DATA_HEADER_SIZE
    {
      FlushedSlot(q, j);
      SlotAgrees(s, q, r.begin - q.begin + j);
    }
  }

  lemma FlushedSlot(q: Queue, j: nat)
    requires j < |Flush(q).slots|
    ensures var k := Flush(q).begin - q.begin + j; 0 <= k < |q.slots| && Flush(q).slots[j] == q.slots[k]
  {
    hide Flush, RQ.CanPull;
    FlushPulls(q);
  }

  lemma SlotAgrees(s: State, q: Queue, j: nat)
    requires ReceiverAgrees(s, q) && j < |q.slots| && q.slots[j].Some?
    ensures Carries(s, q.begin - s.isn + j, q.slots[j].value) && |q.slots[j].value| >= DATA_HEADER_SIZE
  {
    hide Carries;
  }

  lemma PulledAgrees(s: State, q: Queue)
    requires ReceiverAgrees(s, q)
    ensures q.begin - s.isn == |q.pulled|
  {
    hide Carries;
  }

  /** What it pulls was in the window. */
  lemma FlushTakes(s: State, q: Queue, i: nat)
    requires ReceiverAgrees(s, q) && |q.pulled| <= i < |Flush(q).pulled|
    ensures var p := Flush(q).pulled[i]; p.0 == s.isn + i && Carries(s, i, p.1) && |p.1| >= DATA_HEADER_SIZE
  {
    hide Carries, Flush, ReceiverAgrees, RQ.CanPull;
    FlushPulls(q);
    PulledAgrees(s, q);
    assert q.slots[i - |q.pulled|] == Some(Flush(q).pulled[i].1);
    SlotAgrees(s, q, i - |q.pulled|);
  }

  lemma FlushAgrees(s: State, q: Queue)
    requires ReceiverAgrees(s, q)
    ensures ReceiverAgrees(s, Flush(q)) && !RQ.CanPull(Flush(q))
  {
    hide Carries, Flush, RQ.CanPull;
    FlushPulls(q);
    FlushLeaves(s, q);
    var r := Flush(q);
    forall i | 0 <= i < |r.pulled|
      ensures r.pulled[i].0 == s.isn + i && Carries(s, i, r.pulled[i].1) && |r.pulled[i].1| >= DATA_HEADER_SIZE
    {
      if i < |q.pulled| {
        assert r.pulled[i] == q.pulled[i];
      } else {
        FlushTakes(s, q, i);
      }
    }
  }

  /** Receiving a payload of the sender keeps the receiver in agreement with it. */
  lemma ReceiveAgrees(s: State, d: seq<byte>)
    requires |s.queue.slots| <= Pow2(QUEUE_SIZE_EXP) && |s.sent| < Half(W32)
    requires ReceiverAgrees(s, s.queue) && !RQ.CanPull(s.queue) && IsData(s, d)
    ensures !Aborts(s.queue, d)
    ensures var q := Receive(s.queue, d);
            && ReceiverAgrees(s, q) && !RQ.CanPull(q) && s.queue.begin <= q.begin
            && |s.queue.pulled| <= |q.pulled| && (q.begin != s.queue.begin ==> |q.pulled| > 0)
  {
    hide Pow2, RQ.Push, Flush, Carries, Aborts, Unwrap, ReceiverAgrees, SeqNumOf, RQ.CanPull;
    var i :| Carries(s, i, d);
    NumberIdentifies(s, i, d);
    if |d| >= DATA_HEADER_SIZE {
      PushAgrees(s, s.queue, i, d);
      PushEndKeeps(s.queue, s.isn + i, d);
      var q := RQ.Push(s.queue, Pow2(QUEUE_SIZE_EXP), RQ.DropEnd, s.isn + i, d);
      FlushAgrees(s, q);
      FlushPulls(q);
    }
  }

  lemma DataKeepsInv(s: State, step: Step)
    requires |s.queue.slots| <= Pow2(QUEUE_SIZE_EXP)
    requires Inv(s) && step.DataArrives? && Enabled(s, step) && |s.sent| < Half(W32)
    ensures Inv(Next(s, step))
    ensures s.queue.begin <= Next(s, step).queue.begin
  {
    hide Pow2, Receive, AckPayload, Aborts, IsAck, IsPulled, ReceiverAgrees, IsData, IsBuffered, RQ.CanPull;
    var t := Next(s, step);
    ReceiveAgrees(s, step.d);
    Monotone(s, t);
    if t.queue.begin != s.queue.begin {
      LastPulledIsAck(t);
    }
  }

  lemma LastPulledIsAck(t: State)
    requires ReceiverAgrees(t, t.queue) && |t.queue.pulled| > 0
    ensures IsAck(t, AckPayload((t.queue.begin - 1) % Space(W32)))
  {
    var last := Number(t.isn, |t.queue.pulled| - 1);
    assert IsPulled(t, last);
  }

  /** Everything an acknowledgement of a pulled message covers has been pulled. */
  lemma CoveredIsPulled(s: State, p: SS.Packet, n: nat)
    requires |s.sent| < Half(W32) && ReceiverAgrees(s, s.queue)
    requires IsBuffered(s, p) && IsPulled(s, n) && SS.Covers(n, p.seqNum)
    ensures IsPulled(s, p.seqNum)
  {
    hide Lt, Gt, Number;
    var i :| Carries(s, i, p.buf) && p.seqNum == Number(s.isn, i);
    var j: nat :| j < |s.queue.pulled| && n == Number(s.isn, j);
    assert Carries(s, j, s.queue.pulled[j].1);
    Compare(W32, s.isn + i, s.isn + j, p.seqNum, n);
    if p.seqNum == n {
      SameResidue(W32, s.isn + i, s.isn + j);
    }
    assert i <= j;
  }

  lemma AckKeepsInv(s: State, step: Step)
    requires |s.queue.slots| <= Pow2(QUEUE_SIZE_EXP)
    requires Inv(s) && step.AckArrives? && Enabled(s, step) && |s.sent| < Half(W32)
    ensures Inv(Next(s, step))
  {
    hide ReceiverAgrees, IsBuffered, IsPulled, SS.Kept, SS.Removed, IsData, RQ.CanPull;
    var t := Next(s, step);
    var n: nat :| n < Space(W32) && IsPulled(s, n) && step.a == AckPayload(n);
    AckRoundTrip(n);
    Monotone(s, t);
    SS.KeptAndRemoved(s.buffer, n);
    forall p | p in t.buffer ensures IsBuffered(t, p) {
      SS.KeptExactly(s.buffer, n, p);
    }
    forall k | k in t.confirmed ensures IsPulled(t, k) {
      if k !in s.confirmed {
        RemovedIsPulled(s, n, k);
      }
    }
  }

  lemma RemovedIsPulled(s: State, n: nat, k: nat)
    requires |s.sent| < Half(W32) && ReceiverAgrees(s, s.queue) && IsPulled(s, n)
    requires (forall p :: p in s.buffer ==> IsBuffered(s, p)) && k in SS.Removed(s.buffer, n)
    ensures IsPulled(s, k)
  {
    hide ReceiverAgrees, IsBuffered, IsPulled, SS.Removed;
    SS.RemovedExactly(s.buffer, n, k);
    var j :| 0 <= j < |s.buffer| && s.buffer[j].seqNum == k;
    assert s.buffer[j] in s.buffer;
    CoveredIsPulled(s, s.buffer[j], n);
  }

  /** Runs only add to the history. */
  lemma {:induction false} HistoryGrows(isn: nat, steps: seq<Step>)
    requires steps != []
    ensures Run(isn, steps[..|steps| - 1]).sent <= Run(isn, steps).sent
    ensures Run(isn, steps).isn == Run(isn, steps[..|steps| - 1]).isn
  {
  }

  lemma {:induction false} Invariant(isn: nat, steps: seq<Step>)
    requires |Run(isn, steps).sent| < Half(W32)
    ensures Inv(Run(isn, steps)) && Run(isn, steps).isn == isn
    decreases |steps|
  {
    if steps != [] {
      var before, step := steps[..|steps| - 1], steps[|steps| - 1];
      HistoryGrows(isn, steps);
      Invariant(isn, before);
      var s := Run(isn, before);
      if Enabled(s, step) {
        match step
        case Take(_) => SendKeepsInv(s, step);
        case Transmit(_, _) => SendKeepsInv(s, step);
        case Store(_, _) => SendKeepsInv(s, step);
        case Lose(_) => BufferKeepsInv(s, step);
        case ResendStep(_) => BufferKeepsInv(s, step);
        case GiveUpStep(_) => BufferKeepsInv(s, step);
        case DataArrives(_) => DataKeepsInv(s, step);
        case AckArrives(_) => AckKeepsInv(s, step);
      }
    }
  }

  /** The events an untouched, ordered transmission of messages would raise. */
  function Expected(isn: nat, sent: seq<Message>, ping: bool): seq<Event>
    requires forall m :: m in sent ==> WellFormed(m)
  {
    if sent == [] then []
    else
      var e := EventOf(DataPayload(sent[|sent| - 1], Number(isn, |sent| - 1)), ping);
      Expected(isn, sent[..|sent| - 1], ping) + (if e.Some? then [e.value] else [])
  }

  lemma {:induction false} EventsOfPrefix(s: State, k: nat, ping: bool)
    requires Inv(s) && k <= |s.queue.pulled|
    ensures k <= |s.sent|
    ensures Events(s.queue.pulled[..k], ping) == Expected(s.isn, s.sent[..k], ping)
  {
    if k > 0 {
      assert Carries(s, k - 1, s.queue.pulled[k - 1].1);
      EventsOfPrefix(s, k - 1, ping);
      assert s.queue.pulled[..k][..k - 1] == s.queue.pulled[..k - 1];
      assert s.sent[..k][..k - 1] == s.sent[..k - 1];
    }
  }

  /**
   Safety, end to end: in every reachable state with fewer than 2^31 messages sent, the
   receiver's assertion has not failed, and the events it has raised are exactly those of
   a prefix of the messages sent, in order and each once.
   */
  lemma DeliversPrefix(isn: nat, steps: seq<Step>, ping: bool)
    requires |Run(isn, steps).sent| < Half(W32)
    ensures var s := Run(isn, steps);
            && !s.aborted
            && 0 <= Progress(s) <= |s.sent|
            && (forall m :: m in s.sent ==> WellFormed(m))
            && Events(s.queue.pulled, ping) == Expected(isn, s.sent[..Progress(s)], ping)
  {
    Invariant(isn, steps);
    var s := Run(isn, steps);
    EventsOfPrefix(s, |s.queue.pulled|, ping);
    assert s.queue.pulled[..|s.queue.pulled|] == s.queue.pulled;
  }

  /** The contents of ordinary messages. */
  lemma {:induction false} ExpectedOfOrdinary(isn: nat, sent: seq<Message>, ping: bool)
    requires forall m :: m in sent ==> WellFormed(m) && !m.isCont
    ensures var e := Expected(isn, sent, ping);
            |e| == |sent| && forall i :: 0 <= i < |sent| ==> e[i] == Event(PROTOBUF, sent[i].content)
    decreases |sent|
  {
    if sent != [] {
      ExpectedOfOrdinary(isn, sent[..|sent| - 1], ping);
      OrdinaryArrives(sent[|sent| - 1], Number(isn, |sent| - 1), ping);
    }
  }

  /** For ordinary messages the delivered contents themselves are a prefix of the sent ones. */
  lemma DeliversContents(isn: nat, steps: seq<Step>, ping: bool)
    requires var s := Run(isn, steps); |s.sent| < Half(W32) && forall m :: m in s.sent ==> !m.isCont
    ensures var s := Run(isn, steps);
            var e := Events(s.queue.pulled, ping);
            && |e| == Progress(s) <= |s.sent|
            && forall i :: 0 <= i < |e| ==> e[i] == Event(PROTOBUF, s.sent[i].content)
  {
    DeliversPrefix(isn, steps, ping);
    var s := Run(isn, steps);
    ExpectedOfOrdinary(isn, s.sent[..Progress(s)], ping);
  }

  /**
   A number that an acknowledgement has removed from the retransmit buffer belongs to a
   message that the peer has already pulled.
   */
  lemma ConfirmedIsDelivered(isn: nat, steps: seq<Step>, n: nat)
    requires var s := Run(isn, steps); |s.sent| < Half(W32) && n in s.confirmed
    ensures var s := Run(isn, steps);
            exists i: nat :: i < Progress(s) && n == Number(isn, i)
  {
    Invariant(isn, steps);
    var s := Run(isn, steps);
    assert IsPulled(s, n);
  }

  /** No acknowledgement in the network is ahead of the receiver. */
  lemma AcksAreHonest(isn: nat, steps: seq<Step>, a: seq<byte>)
    requires var s := Run(isn, steps); |s.sent| < Half(W32) && a in s.acks
    ensures var s := Run(isn, steps);
            exists i: nat :: i < Progress(s) && AckOf(a) == Some(Number(isn, i))
  {
    hide Run, AckOf, AckPayload, Number;
    Invariant(isn, steps);
    var s := Run(isn, steps);
    PulledIsProgress(s);
    var n: nat :| n < Space(W32) && IsPulled(s, n) && a == AckPayload(n);
    AckRoundTrip(n);
    var i: nat :| i < |s.queue.pulled| && n == Number(s.isn, i);
    assert AckOf(a) == Some(Number(isn, i));
  }

  lemma PulledIsProgress(s: State)
    requires Inv(s)
    ensures Progress(s) == |s.queue.pulled|
  {
  }

  /** Whenever the receiver gets further, an acknowledgement of its last message is on its way. */
  lemma PulledIsAcknowledged(isn: nat, steps: seq<Step>, step: Step) returns (a: seq<byte>)
    requires |Run(isn, steps + [step]).sent| < Half(W32)
    requires Progress(Run(isn, steps + [step])) != Progress(Run(isn, steps))
    ensures var t := Run(isn, steps + [step]);
            Progress(t) > 0 && a in t.acks && AckOf(a) == Some(Number(isn, Progress(t) - 1))
  {
    hide Run, Receive, Aborts, Inv, AckPayload, AckOf, DataPayload;
    var s, t := Run(isn, steps), Run(isn, steps + [step]);
    assert (steps + [step])[..|steps|] == steps;
    HistoryGrows(isn, steps + [step]);
    Invariant(isn, steps);
    InvFacts(s);
    RunStep(isn, steps, step);
    if step.DataArrives? {
      DataKeepsInv(s, step);
      a := AckPayload((t.queue.begin - 1) % Space(W32));
      AckRoundTrip((t.queue.begin - 1) % Space(W32));
    }
  }

  /**
   The acknowledgement of message `i` removes from the retransmit buffer exactly the messages
   up to `i`, and marks them confirmed.
   */
  lemma AckClears(isn: nat, steps: seq<Step>, a: seq<byte>, i: nat, p: SS.Packet, j: nat)
    requires var s := Run(isn, steps);
             && |s.sent| < Half(W32) && a in s.acks && i < |s.sent| && AckOf(a) == Some(Number(isn, i))
             && p in s.buffer && Carries(s, j, p.buf) && p.seqNum == Number(isn, j)
    ensures var t := Next(Run(isn, steps), AckArrives(a));
            && (p in t.buffer <==> j > i)
            && (j <= i ==> Number(isn, j) in t.confirmed)
  {
    hide Run, SS.Kept, SS.Removed, Lt, Gt, Number, AckOf, DataPayload;
    var s, n := Run(isn, steps), Number(isn, i);
    Compare(W32, isn + j, isn + i, p.seqNum, n);
    if p.seqNum == n {
      SameResidue(W32, isn + i, isn + j);
    }
    SS.KeptAndRemoved(s.buffer, n);
    SS.KeptExactly(s.buffer, n, p);
    SS.RemovedExactly(s.buffer, n, p.seqNum);
  }

  /**
   Progress: whenever the payload of the next message arrives, the receiver gets past that
   message, unless it is a continuation without content, which it can never get past.
   */
  lemma NextArrives(isn: nat, steps: seq<Step>, d: seq<byte>)
    requires |Run(isn, steps).sent| < Half(W32)
    requires var s := Run(isn, steps); d in s.data && Carries(s, Progress(s), d)
    ensures var s := Run(isn, steps);
            !s.aborted && (Progress(s) < Progress(Next(s, DataArrives(d))) <==> |d| >= DATA_HEADER_SIZE)
  {
    hide Run, Inv, Pow2, RQ.Push, Flush, Unwrap, SeqNumOf, DataPayload, Aborts;
    Invariant(isn, steps);
    var s := Run(isn, steps);
    InvFacts(s);
    NumberIdentifies(s, Progress(s), d);
    if |d| >= DATA_HEADER_SIZE {
      PushFront(s.queue, d);
      FlushPulls(RQ.Push(s.queue, Pow2(QUEUE_SIZE_EXP), RQ.DropEnd, s.queue.begin, d));
    }
  }

  /** Pushing the next number makes the front available. */
  lemma PushFront(q: Queue, d: seq<byte>)
    requires |q.slots| <= Pow2(QUEUE_SIZE_EXP) && !RQ.CanPull(q)
    ensures var r := RQ.Push(q, Pow2(QUEUE_SIZE_EXP), RQ.DropEnd, q.begin, d);
            RQ.CanPull(r) && r.begin == q.begin
  {
  }

  /** The receiver has message `k`: it was pulled, or waits in the reorder queue. */
  ghost predicate Has(s: State, k: nat) {
    k < Progress(s) || s.isn + k in RQ.Waiting(s.queue)
  }

  /** Flushing keeps what is there: what leaves the window was pulled. */
  lemma FlushKeeps(q: Queue, n: int)
    ensures var r := Flush(q);
            n < r.begin || n in RQ.Waiting(r) <==> n < q.begin || n in RQ.Waiting(q)
  {
    hide RQ.Waiting, Flush;
    FlushPulls(q);
    RQ.WaitsAt(q, n);
    RQ.WaitsAt(Flush(q), n);
    var r := Flush(q);
    if q.begin <= n < r.begin {
      var i := n - q.begin;
      assert q.slots[i] == Some(r.pulled[|q.pulled| + i].1);
    }
  }

  /**
   Receiving a payload loses no message, and adds its own exactly if that is less than the
   size of the queue ahead of what was pulled.
   */
  lemma ReceiveHas(s: State, d: seq<byte>, j: nat, k: nat)
    requires |s.queue.slots| <= Pow2(QUEUE_SIZE_EXP) && |s.sent| < Half(W32)
    requires Inv(s) && Carries(s, j, d) && |d| >= DATA_HEADER_SIZE && d in s.data
    ensures var t := Next(s, DataArrives(d));
            Has(t, k) <==> Has(s, k) || (k == j && j < Progress(s) + Pow2(QUEUE_SIZE_EXP))
  {
    hide RQ.Waiting, RQ.Push, Flush, DataPayload, Pow2, SeqNumOf, Unwrap, Aborts, Inv;
    InvFacts(s);
    NumberIdentifies(s, j, d);
    RQ.PushWaiting(s.queue, Pow2(QUEUE_SIZE_EXP), RQ.DropEnd, s.isn + j, d);
    FlushKeeps(RQ.Push(s.queue, Pow2(QUEUE_SIZE_EXP), RQ.DropEnd, s.isn + j, d), s.isn + k);
  }

  lemma ShortIgnored(q: Queue, d: seq<byte>)
    requires |q.slots| <= Pow2(QUEUE_SIZE_EXP) && |d| < DATA_HEADER_SIZE
    ensures Receive(q, d) == q
  {
  }

  lemma StepHas(s: State, step: Step, k: nat)
    requires |s.queue.slots| <= Pow2(QUEUE_SIZE_EXP) && |s.sent| < Half(W32)
    requires Inv(s) && Enabled(s, step)
    ensures Progress(s) <= Progress(Next(s, step))
    ensures Has(s, k) ==> Has(Next(s, step), k)
  {
    hide RQ.Waiting, Receive, DataPayload, Pow2, Inv;
    if step.DataArrives? {
      DataKeepsInv(s, step);
      InvFacts(s);
      if |step.d| >= DATA_HEADER_SIZE {
        var j :| Carries(s, j, step.d);
        ReceiveHas(s, step.d, j, k);
      } else {
        ShortIgnored(s.queue, step.d);
      }
    }
  }

  /** Step `n` of the continuation is the arrival of the full-header payload of message `k`. */
  ghost predicate ArrivesAt(isn: nat, steps: seq<Step>, more: seq<Step>, n: nat, k: nat)
    requires n < |more|
  {
    var s := Run(isn, steps + more[..n]);
    more[n].DataArrives? && Enabled(s, more[n]) && Carries(s, k, more[n].d) && |more[n].d| >= DATA_HEADER_SIZE
  }

  ghost predicate Arrives(isn: nat, steps: seq<Step>, more: seq<Step>, k: nat) {
    exists n :: 0 <= n < |more| && ArrivesAt(isn, steps, more, n, k)
  }

  /** What arrives within reach of the queue at the start of a continuation, the receiver has at its end. */
  lemma {:induction false} ArrivedIsThere(isn: nat, steps: seq<Step>, more: seq<Step>, k: nat)
    requires |Run(isn, steps + more).sent| < Half(W32)
    ensures Progress(Run(isn, steps)) <= Progress(Run(isn, steps + more))
    ensures Has(Run(isn, steps), k) ==> Has(Run(isn, steps + more), k)
    ensures Arrives(isn, steps, more, k) && k < Progress(Run(isn, steps)) + Pow2(QUEUE_SIZE_EXP) ==>
              Has(Run(isn, steps + more), k)
    decreases |more|
  {
    hide Has, Next, Inv, Pow2, Carries, Enabled;
    if more == [] {
      assert steps + more == steps;
    } else {
      var m := |more| - 1;
      RunMore(isn, steps, more);
      HistoryGrows(isn, steps + more);
      ArrivedIsThere(isn, steps, more[..m], k);
      Invariant(isn, steps + more[..m]);
      ArrivesBefore(isn, steps, more, k);
      var s := Run(isn, steps + more[..m]);
      if Enabled(s, more[m]) {
        StepHas(s, more[m], k);
        if ArrivesAt(isn, steps, more, m, k) {
          ArrivalMeans(s, more[m]);
          ReceiveHas(s, more[m].d, k, k);
        }
      }
    }
  }

  lemma ArrivalMeans(s: State, step: Step)
    requires Enabled(s, step) && step.DataArrives?
    ensures step.d in s.data
  {
  }

  /** An arrival is the last step or among the ones before it. */
  lemma ArrivesBefore(isn: nat, steps: seq<Step>, more: seq<Step>, k: nat)
    requires more != []
    ensures Arrives(isn, steps, more, k) ==>
              Arrives(isn, steps, more[..|more| - 1], k) || ArrivesAt(isn, steps, more, |more| - 1, k)
  {
    hide Run, Enabled, Carries;
    var m := |more| - 1;
    if n :| 0 <= n < |more| && ArrivesAt(isn, steps, more, n, k) && n < m {
      assert more[..m][..n] == more[..n];
      assert ArrivesAt(isn, steps, more[..m], n, k);
    }
  }

  /**
   The reorder queue does its work: if, in whatever order and among whatever other steps,
   the payload of each of the next `n` messages arrives, all with full headers and no
   more than the queue can hold, then the receiver gets past all of them.
   */
  lemma AnyOrderPasses(isn: nat, steps: seq<Step>, more: seq<Step>, n: nat)
    requires |Run(isn, steps + more).sent| < Half(W32) && n <= 256
    requires forall k: nat :: Progress(Run(isn, steps)) <= k < Progress(Run(isn, steps)) + n ==>
               Arrives(isn, steps, more, k)
    ensures Progress(Run(isn, steps + more)) >= Progress(Run(isn, steps)) + n
  {
    hide Run, Inv, Has, Arrives;
    assert Pow2(QUEUE_SIZE_EXP) == 256;
    var p, t := Progress(Run(isn, steps)), Run(isn, steps + more);
    Invariant(isn, steps + more);
    InvFacts(t);
    ArrivedIsThere(isn, steps, more, Progress(t));
    if Progress(t) < p + n {
      assert Has(t, Progress(t));
      NotThere(t);
      assert false;
    }
  }

  lemma NotThere(t: State)
    requires !RQ.CanPull(t.queue) && 0 <= Progress(t)
    ensures !Has(t, Progress(t))
  {
    RQ.PullWaiting(t.queue);
  }

  /**
   Message `i` can still arrive: its payload has a full header, and it is in flight, in the
   retransmit buffer, or on its way through the sender.
   */
  ghost predicate Alive(s: State, i: nat)
    requires HasPayload(s, i)
  {
    && |Payload(s, i)| >= DATA_HEADER_SIZE
    && (i in s.taken || i in s.transmitted || Payload(s, i) in s.data || Buffered(s.buffer, Payload(s, i)))
  }

  predicate Buffered(ps: seq<SS.Packet>, d: seq<byte>) {
    exists j :: 0 <= j < |ps| && ps[j].buf == d
  }

  /** The receiver has pulled everything before message `i`, which cannot arrive any more. */
  ghost predicate Stuck(s: State, i: nat) {
    Inv(s) && Progress(s) == i < |s.sent| && HasPayload(s, i) && !Alive(s, i)
  }

  /** With fewer than 2^31 messages, no two of them have the same payload. */
  lemma PayloadsDiffer(s: State, i: nat, j: nat)
    requires HasPayload(s, i) && HasPayload(s, j) && i != j && |s.sent| < Half(W32)
    ensures Payload(s, i) != Payload(s, j)
  {
    hide DataPayload, SeqNumOf;
    SeqNumRoundTrip(s.sent[i], Number(s.isn, i));
    SeqNumRoundTrip(s.sent[j], Number(s.isn, j));
    if Number(s.isn, i) == Number(s.isn, j) {
      SameResidue(W32, s.isn + i, s.isn + j);
    }
  }

  /** Pushing anything but the next number does not make the front available. */
  lemma PushElsewhere(q: Queue, s: int, d: seq<byte>)
    requires |q.slots| <= Pow2(QUEUE_SIZE_EXP) && !RQ.CanPull(q) && s != q.begin
    ensures var r := RQ.Push(q, Pow2(QUEUE_SIZE_EXP), RQ.DropEnd, s, d);
            !RQ.CanPull(r) && r.begin == q.begin && Flush(r) == r
  {
    PushEndKeeps(q, s, d);
  }

  lemma StuckStep(s: State, step: Step, i: nat)
    requires |s.queue.slots| <= Pow2(QUEUE_SIZE_EXP)
    requires Stuck(s, i) && Enabled(s, step) && Inv(Next(s, step)) && |Next(s, step).sent| < Half(W32)
    ensures Stuck(Next(s, step), i)
  {
    hide DataPayload, Pow2, RQ.Push, Flush, Inv;
    var t := Next(s, step);
    InvFacts(s);
    match step
    case Take(_) =>
      assert Payload(t, i) == Payload(s, i);
    case Transmit(j, _) =>
      if j != i {
        PayloadsDiffer(s, i, j);
      }
    case Store(j, _) =>
      if j != i {
        PayloadsDiffer(s, i, j);
      }
    case ResendStep(j) =>
    case GiveUpStep(j) =>
      KeptNotBuffered(s.buffer, s.buffer[j].seqNum, Payload(s, i));
    case Lose(_) =>
    case DataArrives(d) =>
      StuckReceives(s, d, i);
    case AckArrives(a) =>
      if AckOf(a).Some? {
        KeptNotBuffered(s.buffer, AckOf(a).value, Payload(s, i));
      }
  }

  lemma InvFacts(s: State)
    requires Inv(s)
    ensures !s.aborted && ReceiverAgrees(s, s.queue) && !RQ.CanPull(s.queue)
    ensures forall d :: d in s.data ==> IsData(s, d)
  {
  }

  lemma KeptNotBuffered(ps: seq<SS.Packet>, n: nat, d: seq<byte>)
    ensures !Buffered(ps, d) ==> !Buffered(SS.Kept(ps, n), d)
  {
    var kept := SS.Kept(ps, n);
    if Buffered(kept, d) {
      var j :| 0 <= j < |kept| && kept[j].buf == d;
      SS.KeptExactly(ps, n, kept[j]);
    }
  }

  lemma StuckReceives(s: State, d: seq<byte>, i: nat)
    requires |s.queue.slots| <= Pow2(QUEUE_SIZE_EXP) && |s.sent| < Half(W32)
    requires Stuck(s, i) && d in s.data
    ensures !Aborts(s.queue, d) && Receive(s.queue, d).begin == s.queue.begin
  {
    hide DataPayload, Pow2, RQ.Push, Flush, Inv, Aborts;
    InvFacts(s);
    var j :| Carries(s, j, d);
    NumberIdentifies(s, j, d);
    if |d| >= DATA_HEADER_SIZE {
      assert j != i;
      PushElsewhere(s.queue, s.isn + j, d);
    }
  }

  lemma RunMore(isn: nat, steps: seq<Step>, more: seq<Step>)
    requires more != []
    ensures (steps + more)[..|steps + more| - 1] == steps + more[..|more| - 1]
    ensures (steps + more)[|steps + more| - 1] == more[|more| - 1]
  {
  }

  /** No continuation of a run gets past a message that cannot arrive any more. */
  lemma {:induction false} StuckForever(isn: nat, steps: seq<Step>, more: seq<Step>, i: nat)
    requires |Run(isn, steps + more).sent| < Half(W32) && Stuck(Run(isn, steps), i)
    ensures Stuck(Run(isn, steps + more), i)
    decreases |more|
  {
    hide Stuck, Next;
    if more == [] {
      assert steps + more == steps;
    } else {
      RunMore(isn, steps, more);
      HistoryGrows(isn, steps + more);
      var rest := more[..|more| - 1];
      StuckForever(isn, steps, rest, i);
      Invariant(isn, steps + more);
      if Enabled(Run(isn, steps + rest), more[|more| - 1]) {
        StuckStep(Run(isn, steps + rest), more[|more| - 1], i);
      }
    }
  }

  lemma RunStep(isn: nat, steps: seq<Step>, step: Step)
    ensures var s := Run(isn, steps);
            Run(isn, steps + [step]) == if Enabled(s, step) then Next(s, step) else s
  {
    assert (steps + [step])[..|steps|] == steps;
  }

  /** Once the payload of the next message is in flight, its arrival passes the message. */
  lemma FlightPasses(isn: nat, steps: seq<Step>, i: nat)
    requires |Run(isn, steps).sent| < Half(W32)
    requires var s := Run(isn, steps);
             Progress(s) == i && HasPayload(s, i) && |Payload(s, i)| >= DATA_HEADER_SIZE && Payload(s, i) in s.data
    ensures var s := Run(isn, steps);
            var t := Run(isn, steps + [DataArrives(Payload(s, i))]);
            t.sent == s.sent && Progress(t) > i
  {
    hide DataPayload, Receive, Aborts, Inv;
    var s := Run(isn, steps);
    assert Carries(s, i, Payload(s, i));
    NextArrives(isn, steps, Payload(s, i));
    Invariant(isn, steps);
    assert !s.aborted;
    RunStep(isn, steps, DataArrives(Payload(s, i)));
  }

  /** A buffered payload is one resending away from being in flight. */
  lemma BufferedPasses(isn: nat, steps: seq<Step>, i: nat) returns (more: seq<Step>)
    requires |Run(isn, steps).sent| < Half(W32)
    requires var s := Run(isn, steps);
             && Progress(s) == i && HasPayload(s, i) && |Payload(s, i)| >= DATA_HEADER_SIZE
             && Buffered(s.buffer, Payload(s, i))
    ensures var s := Run(isn, steps);
            Run(isn, steps + more).sent == s.sent && Progress(Run(isn, steps + more)) > i
  {
    hide DataPayload, Run;
    var s := Run(isn, steps);
    var j :| 0 <= j < |s.buffer| && s.buffer[j].buf == Payload(s, i);
    RunStep(isn, steps, ResendStep(j));
    FlightPasses(isn, steps + [ResendStep(j)], i);
    more := [ResendStep(j)] + [DataArrives(Payload(s, i))];
    assert steps + [ResendStep(j)] + [DataArrives(Payload(s, i))] == steps + more;
  }

  /** A run that has pulled everything before a message that can still arrive has a continuation past it. */
  lemma AliveCanPass(isn: nat, steps: seq<Step>, i: nat) returns (more: seq<Step>)
    requires |Run(isn, steps).sent| < Half(W32)
    requires var s := Run(isn, steps); Progress(s) == i && HasPayload(s, i) && Alive(s, i)
    ensures var s := Run(isn, steps);
            Run(isn, steps + more).sent == s.sent && Progress(Run(isn, steps + more)) > i
  {
    hide DataPayload, Run;
    var s := Run(isn, steps);
    var d := Payload(s, i);
    if d in s.data {
      FlightPasses(isn, steps, i);
      more := [DataArrives(d)];
    } else if Buffered(s.buffer, d) {
      more := BufferedPasses(isn, steps, i);
    } else if i in s.taken {
      RunStep(isn, steps, Transmit(i, true));
      FlightPasses(isn, steps + [Transmit(i, true)], i);
      more := [Transmit(i, true)] + [DataArrives(d)];
      assert steps + [Transmit(i, true)] + [DataArrives(d)] == steps + more;
    } else if |s.buffer| < SS.BUFFER_SIZE {
      more := StoredPasses(isn, steps, i);
    } else {
      more := RoomPasses(isn, steps, i);
    }
  }

  /** A transmitted message that is not buffered yet can be stored, if there is room. */
  lemma StoredPasses(isn: nat, steps: seq<Step>, i: nat) returns (more: seq<Step>)
    requires |Run(isn, steps).sent| < Half(W32)
    requires var s := Run(isn, steps);
             && Progress(s) == i && HasPayload(s, i) && |Payload(s, i)| >= DATA_HEADER_SIZE && i in s.transmitted
             && |s.buffer| < SS.BUFFER_SIZE && !Buffered(s.buffer, Payload(s, i))
    ensures var s := Run(isn, steps);
            Run(isn, steps + more).sent == s.sent && Progress(Run(isn, steps + more)) > i
  {
    hide DataPayload, Run, Inv;
    var s := Run(isn, steps);
    var stored := steps + [Store(i, 0)];
    Invariant(isn, steps);
    NotNumbered(s, i);
    RunStep(isn, steps, Store(i, 0));
    assert Run(isn, stored).buffer[|s.buffer|].buf == Payload(s, i);
    var rest := BufferedPasses(isn, stored, i);
    more := [Store(i, 0)] + rest;
    assert stored + rest == steps + more;
  }

  /** And if there is none, giving up on another packet makes some. */
  lemma RoomPasses(isn: nat, steps: seq<Step>, i: nat) returns (more: seq<Step>)
    requires |Run(isn, steps).sent| < Half(W32)
    requires var s := Run(isn, steps);
             && Progress(s) == i && HasPayload(s, i) && |Payload(s, i)| >= DATA_HEADER_SIZE && i in s.transmitted
             && |s.buffer| >= SS.BUFFER_SIZE && !Buffered(s.buffer, Payload(s, i))
    ensures var s := Run(isn, steps);
            Run(isn, steps + more).sent == s.sent && Progress(Run(isn, steps + more)) > i
  {
    hide DataPayload, Run, SS.Kept, SS.Removed, Buffered;
    var s := Run(isn, steps);
    Invariant(isn, steps);
    var n := s.buffer[0].seqNum;
    RunStep(isn, steps, GiveUpStep(0));
    KeptNotBuffered(s.buffer, n, Payload(s, i));
    SS.KeptFewer(s.buffer, 0);
    var rest := StoredPasses(isn, steps + [GiveUpStep(0)], i);
    more := [GiveUpStep(0)] + rest;
    assert steps + [GiveUpStep(0)] + rest == steps + more;
  }

  /** What is not buffered has no number in the buffer. */
  lemma NotNumbered(s: State, i: nat)
    requires Inv(s) && HasPayload(s, i) && |s.sent| < Half(W32) && !Buffered(s.buffer, Payload(s, i))
    ensures !SS.HasNumber(s.buffer, Number(s.isn, i))
  {
    hide DataPayload, ReceiverAgrees;
    if SS.HasNumber(s.buffer, Number(s.isn, i)) {
      var k :| 0 <= k < |s.buffer| && s.buffer[k].seqNum == Number(s.isn, i);
      assert IsBuffered(s, s.buffer[k]);
      var j :| Carries(s, j, s.buffer[k].buf) && s.buffer[k].seqNum == Number(s.isn, j);
      SameResidue(W32, s.isn + i, s.isn + j);
      assert false;
    }
  }

  /** Some continuation within the first 2^31 messages gets the receiver past message `i`. */
  ghost predicate CanPass(isn: nat, steps: seq<Step>, i: nat) {
    exists more :: |Run(isn, steps + more).sent| < Half(W32) && Progress(Run(isn, steps + more)) > i
  }

  /**
   Exactly when the receiver can still get past the next message: some continuation of the
   run does so if and only if the payload of that message has a full header and is in
   flight, in the retransmit buffer, or on its way through a send. So a send that the
   socket refuses, and giving up on a message that was lost, block the channel for good.
   */
  lemma PassableIffAlive(isn: nat, steps: seq<Step>, i: nat)
    requires |Run(isn, steps).sent| < Half(W32)
    requires Progress(Run(isn, steps)) == i < |Run(isn, steps).sent|
    ensures HasPayload(Run(isn, steps), i)
    ensures Alive(Run(isn, steps), i) <==> CanPass(isn, steps, i)
  {
    hide Run, Alive;
    Invariant(isn, steps);
    assert Run(isn, steps).sent[i] in Run(isn, steps).sent;
    if Alive(Run(isn, steps), i) {
      var more := AliveCanPass(isn, steps, i);
      assert Progress(Run(isn, steps + more)) > i;
    } else if CanPass(isn, steps, i) {
      var more :| |Run(isn, steps + more).sent| < Half(W32) && Progress(Run(isn, steps + more)) > i;
      StuckForever(isn, steps, more, i);
      assert false;
    }
  }

  /** A fresh message is in none of the places a payload can be in. */
  lemma FreshIsNowhere(s: State, m: Message)
    requires |s.queue.slots| <= Pow2(QUEUE_SIZE_EXP)
    requires Inv(s) && WellFormed(m) && |s.sent| + 1 < Half(W32)
    ensures var t, i := Next(Next(s, Take(m)), Transmit(|s.sent|, false)), |s.sent|;
            HasPayload(t, i) && !Alive(t, i)
  {
    hide DataPayload, ReceiverAgrees;
    var t, i := Next(Next(s, Take(m)), Transmit(|s.sent|, false)), |s.sent|;
    if Payload(t, i) in t.data {
      var j :| Carries(s, j, Payload(t, i));
      PayloadsDiffer(t, i, j);
      assert false;
    } else if Buffered(t.buffer, Payload(t, i)) {
      var k :| 0 <= k < |t.buffer| && t.buffer[k].buf == Payload(t, i);
      assert IsBuffered(s, s.buffer[k]);
      var j :| Carries(s, j, Payload(t, i));
      PayloadsDiffer(t, i, j);
      assert false;
    }
  }

  /**
   When the socket refuses the message that follows everything delivered so far, its number
   is consumed all the same, and nothing that is sent afterwards is ever delivered.
   */
  lemma RefusedSendBlocks(isn: nat, steps: seq<Step>, m: Message, more: seq<Step>)
    requires var s := Run(isn, steps); Progress(s) == |s.sent| && |s.sent| + 1 < Half(W32) && WellFormed(m)
    requires var refused := steps + [Take(m)] + [Transmit(|Run(isn, steps).sent|, false)];
             |Run(isn, refused + more).sent| < Half(W32)
    ensures var refused := steps + [Take(m)] + [Transmit(|Run(isn, steps).sent|, false)];
            Progress(Run(isn, refused + more)) == |Run(isn, steps).sent|
  {
    hide Run, Inv, Alive;
    var s := Run(isn, steps);
    var refused := steps + [Take(m)] + [Transmit(|s.sent|, false)];
    Invariant(isn, steps);
    RunStep(isn, steps, Take(m));
    RunStep(isn, steps + [Take(m)], Transmit(|s.sent|, false));
    FreshIsNowhere(s, m);
    Invariant(isn, refused);
    StuckForever(isn, refused, more, |s.sent|);
  }

  /** And no run gets past a message whose payload is shorter than a full header. */
  lemma ShortMessageBlocks(isn: nat, steps: seq<Step>, i: nat)
    requires var s := Run(isn, steps);
             |s.sent| < Half(W32) && i < |s.sent| && s.sent[i].isCont && s.sent[i].content == []
    ensures Progress(Run(isn, steps)) <= i
  {
    Invariant(isn, steps);
    PulledAreFull(Run(isn, steps));
  }

  lemma PulledAreFull(s: State)
    requires ReceiverAgrees(s, s.queue)
    ensures |s.queue.pulled| <= |s.sent|
    ensures forall i :: 0 <= i < |s.queue.pulled| ==> s.sent[i].isCont ==> s.sent[i].content != []
  {
    var n := |s.queue.pulled|;
    assert n > 0 ==> Carries(s, n - 1, s.queue.pulled[n - 1].1);
    forall i | 0 <= i < n
      ensures i < |s.sent|
      ensures s.sent[i].isCont ==> s.sent[i].content != []
    {
      assert Carries(s, i, s.queue.pulled[i].1);
    }
  }
}
