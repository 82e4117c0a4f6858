/** What whole runs of the video receiver make of frames: which are remembered, counted and handed on. */
module VideoRuns {
  import opened Common
  import opened SeqNum
  import opened FrameSpec
  import opened VideoSpec

  /** A flush that was tried: the unwrapped index of the frame, and what the frame processor said. */
  datatype Flush = Flush(frame: nat, result: FlushResult)

  /** The flush that a newer packet forces for the frame before it. */
  function ForcedFlush(r: Receiver, e: Event): seq<Flush> {
    if !Ignored(r, e) && Newer(r, e.packet) && r.cur >= 0 && r.prev != r.cur then
      [Flush(r.unwrapped, e.forced.result)]
    else []
  }

  /** The flush of a packet's own frame, once enough of it is there. */
  function OwnFlush(r: Receiver, e: Event): seq<Flush> {
    var s := Advance(r, e);
    if !Ignored(r, e) && s.cur != s.prev && e.possible then [Flush(s.unwrapped, e.flushing.result)] else []
  }

  /** Every flush of a run, in order. */
  function Flushes(events: seq<Event>): (log: seq<Flush>)
    decreases |events|
  {
    if events == [] then []
    else
      var r, e := Run(events[..|events| - 1]), events[|events| - 1];
      Flushes(events[..|events| - 1]) + ForcedFlush(r, e) + OwnFlush(r, e)
  }

  predicate HandedOn(delivered: seq<Delivery>, frame: nat) {
    exists i :: 0 <= i < |delivered| && delivered[i].frame == frame
  }

  /** The frames that FEC could not complete and those handed on, by their 16-bit indices. */
  function Tracked(log: seq<Flush>, delivered: seq<Delivery>): (indices: seq<nat>) {
    if log == [] then []
    else
      var last := log[|log| - 1];
      Tracked(log[..|log| - 1], delivered) +
      if last.result == FecMissed || (last.result != Failed && HandedOn(delivered, last.frame)) then
        [last.frame % U16]
      else []
  }

  /** A frame that was flushed with any result but failure is not flushed again. */
  ghost predicate Settled(log: seq<Flush>, r: Receiver) {
    forall f :: f in log ==>
      r.cur >= 0 && f.frame <= r.unwrapped && (f.frame == r.unwrapped && f.result != Failed ==> r.prev == r.cur)
  }

  ghost predicate FromLog(log: seq<Flush>, delivered: seq<Delivery>) {
    forall d :: d in delivered ==> Flush(d.frame, Complete) in log || Flush(d.frame, FecRecovered) in log
  }

  /** The 16-bit index of the last frame whose flush did not fail, or `none`. */
  function LastDone(log: seq<Flush>, none: int): int {
    if log == [] then none
    else if log[|log| - 1].result != Failed then log[|log| - 1].frame % U16
    else LastDone(log[..|log| - 1], none)
  }

  ghost predicate Agrees(log: seq<Flush>, r: Receiver) {
    && Settled(log, r) && FromLog(log, r.delivered) && r.added == Tracked(log, r.delivered)
    && r.prev == LastDone(log, -1) && r.complete == LastDone(log, 0)
  }

  lemma TrackedLast(log: seq<Flush>, f: Flush, delivered: seq<Delivery>)
    ensures Tracked(log + [f], delivered) == Tracked(log, delivered) +
              if f.result == FecMissed || (f.result != Failed && HandedOn(delivered, f.frame)) then [f.frame % U16]
              else []
  {
    assert (log + [f])[..|log|] == log;
  }

  lemma HandedOnLast(delivered: seq<Delivery>, d: Delivery, frame: nat)
    ensures HandedOn(delivered + [d], frame) <==> HandedOn(delivered, frame) || d.frame == frame
  {
    var all := delivered + [d];
    if HandedOn(delivered, frame) {
      var i :| 0 <= i < |delivered| && delivered[i].frame == frame;
      assert all[i].frame == frame;
    }
    assert all[|delivered|] == d;
  }

  /** One more delivery does not matter to flushes that failed or were of other frames. */
  lemma {:induction false} TrackedGrows(log: seq<Flush>, delivered: seq<Delivery>, d: Delivery)
    requires forall f :: f in log ==> f.frame != d.frame || f.result == Failed
    ensures Tracked(log, delivered + [d]) == Tracked(log, delivered)
    decreases |log|
  {
    hide HandedOn;
    if log != [] {
      var last := log[|log| - 1];
      TrackedGrows(log[..|log| - 1], delivered, d);
      HandedOnLast(delivered, d, last.frame);
    }
  }

  lemma NotHandedOn(r: Receiver)
    requires Inv(r) && r.cur >= 0 && r.prev != r.cur
    ensures !HandedOn(r.delivered, r.unwrapped)
  {
    var n := |r.delivered|;
    forall i | 0 <= i < n ensures r.delivered[i].frame < r.unwrapped {
      assert r.delivered[i].frame <= r.delivered[n - 1].frame;
    }
  }

  lemma FlushAgrees(log: seq<Flush>, r: Receiver, f: Flushing)
    requires Agrees(log, r) && Inv(r) && r.cur >= 0 && r.prev != r.cur
    ensures Agrees(log + [Flush(r.unwrapped, f.result)], FlushFrame(r, f))
  {
    hide HandedOn, Repaired, Lacks, Inv;
    var s, flush := FlushFrame(r, f), Flush(r.unwrapped, f.result);
    NotHandedOn(r);
    TrackedLast(log, flush, s.delivered);
    IndexOfFrame(r);
    assert Settled(log + [flush], s);
    assert (log + [flush])[..|log|] == log;
    if s.delivered != r.delivered {
      var d := s.delivered[|r.delivered|];
      TrackedGrows(log, r.delivered, d);
      HandedOnLast(r.delivered, d, r.unwrapped);
      forall e | e in s.delivered
        ensures Flush(e.frame, Complete) in log + [flush] || Flush(e.frame, FecRecovered) in log + [flush]
      {
        assert e in r.delivered || e == d;
      }
    }
  }

  lemma IndexOfFrame(r: Receiver)
    requires Inv(r) && r.cur >= 0
    ensures r.unwrapped % U16 == r.cur
  {
  }

  /** A newer frame begins. */
  lemma NewFrameAgrees(log: seq<Flush>, r: Receiver, s: Receiver)
    requires Agrees(log, r) && s.added == r.added && s.delivered == r.delivered && s.cur >= 0
    requires s.prev == r.prev && s.complete == r.complete
    requires r.cur >= 0 ==> s.unwrapped > r.unwrapped
    ensures Agrees(log, s)
  {
  }

  lemma SamePlaceAgrees(log: seq<Flush>, r: Receiver, s: Receiver)
    requires Agrees(log, r) && s == r.(profile := s.profile, units := s.units)
    ensures Agrees(log, s)
  {
  }

  lemma AdvanceAgrees(log: seq<Flush>, r: Receiver, e: Event)
    requires Agrees(log, r) && Inv(r) && !Ignored(r, e) && e.packet.frameIndex < U16
    ensures Agrees(log + ForcedFlush(r, e), Advance(r, e))
  {
    hide Agrees, FlushFrame, Ignored, Gt;
    assert log + [] == log;
    if Newer(r, e.packet) {
      if r.cur >= 0 {
        IndexOfFrame(r);
        CurInRange(r);
        UnwrappedStep(r.unwrapped, r.cur, e.packet.frameIndex);
      }
      if r.cur >= 0 && r.prev != r.cur {
        FlushAgrees(log, r, e.forced);
        NewFrameAgrees(log + ForcedFlush(r, e), FlushFrame(r, e.forced), Advance(r, e));
      } else {
        NewFrameAgrees(log, r, Advance(r, e));
      }
    }
  }

  lemma CurInRange(r: Receiver)
    requires Inv(r)
    ensures r.cur < U16
  {
  }

  /** Which stream a packet belongs to has no influence on flushes. */
  lemma ProfileDoesNotMatter(r: Receiver, e: Event)
    requires !Ignored(r, e)
    ensures var p := r.(profile := e.packet.streamIndex);
            && !Ignored(p, e) && ForcedFlush(p, e) == ForcedFlush(r, e) && OwnFlush(p, e) == OwnFlush(r, e)
  {
    hide Lt, Gt, Repaired, Lacks;
  }

  lemma PacketAgrees(log: seq<Flush>, r: Receiver, e: Event)
    requires Agrees(log, r) && Inv(r) && e.packet.frameIndex < U16
    ensures Agrees(log + ForcedFlush(r, e) + OwnFlush(r, e), AvPacket(r, e))
  {
    hide Agrees, FlushFrame, Inv, Advance;
    assert log + [] + [] == log;
    if !Ignored(r, e) {
      ProfileDoesNotMatter(r, e);
      var p := r.(profile := e.packet.streamIndex);
      SamePlaceAgrees(log, r, p);
      InvIsRight(r, p);
      AdvanceAgrees(log, p, e);
      AdvanceKeepsInv(p, e);
      var s := Advance(p, e);
      var t := s.(units := s.units + [e.packet.frameIndex]);
      InvIsRight(s, t);
      var begun := log + ForcedFlush(r, e);
      SamePlaceAgrees(begun, s, t);
      assert begun + [] == begun;
      if t.cur != t.prev && e.possible {
        FlushAgrees(begun, t, e.flushing);
      }
    }
  }

  /**
   Over every run: the frames put in the reference list are, in order, exactly those whose
   flush the FEC could not complete and those that were handed on, and what is handed on
   was flushed complete or recovered. The frame taken for the last complete one is the last
   whose flush did not fail.
   */
  lemma {:induction false} AddedAreTracked(events: seq<Event>)
    requires WireEvents(events)
    ensures var r := Run(events);
            && r.added == Tracked(Flushes(events), r.delivered) && FromLog(Flushes(events), r.delivered)
            && r.prev == LastDone(Flushes(events), -1) && r.complete == LastDone(Flushes(events), 0)
    ensures Agrees(Flushes(events), Run(events))
    decreases |events|
  {
    hide AvPacket, ForcedFlush, OwnFlush, Inv;
    if events != [] {
      var before, e := events[..|events| - 1], events[|events| - 1];
      assert e in events;
      AddedAreTracked(before);
      DeliveredInOrder(before);
      PacketAgrees(Flushes(before), Run(before), e);
    }
  }

  /** A run from some state. */
  function RunFrom(r: Receiver, events: seq<Event>): Receiver
    decreases |events|
  {
    if events == [] then r else AvPacket(RunFrom(r, events[..|events| - 1]), events[|events| - 1])
  }

  lemma {:induction false} RunInParts(r: Receiver, a: seq<Event>, b: seq<Event>)
    ensures RunFrom(r, a + b) == RunFrom(RunFrom(r, a), b)
    decreases |b|
  {
    hide AvPacket;
    if b == [] {
      assert a + b == a;
    } else {
      RunInParts(r, a, b[..|b| - 1]);
      assert (a + b)[..|a + b| - 1] == a + b[..|b| - 1];
    }
  }

  lemma {:induction false} RunIsRunFrom(events: seq<Event>)
    ensures Run(events) == RunFrom(Init(), events)
    decreases |events|
  {
    hide AvPacket;
    if events != [] {
      RunIsRunFrom(events[..|events| - 1]);
    }
  }

  lemma RunOne(r: Receiver, e: Event)
    ensures RunFrom(r, [e]) == AvPacket(r, e)
  {
    hide AvPacket;
    assert [e][..0] == [] && RunFrom(r, []) == r;
  }

  /** The packets of one frame: those before it can be flushed, the one that completes it, and those after that. */
  datatype Reception = Reception(waiting: seq<Event>, complete: Event, late: seq<Event>)

  function EventsOf(f: Reception): (events: seq<Event>)
    ensures events != []
  {
    f.waiting + [f.complete] + f.late
  }

  function AllEvents(frames: seq<Reception>): seq<Event> {
    if frames == [] then [] else AllEvents(frames[..|frames| - 1]) + EventsOf(frames[|frames| - 1])
  }

  predicate PacketsOf(events: seq<Event>, index: nat) {
    forall e :: e in events ==> e.packet.frameIndex == index && e.packet.streamIndex < e.profiles
  }

  /** Its slice names no frame, or one of the `k` before it and not more than 16 frames back. */
  predicate RefersBack(c: Content, k: nat) {
    var slice := SliceOf(c);
    slice.PSlice? ==> slice.reference == 0xff || (slice.reference < k && slice.reference < 16)
  }

  /** A frame received completely, as far as needed, and recovered where needed, that refers to the `k` before it. */
  predicate Whole(f: Reception, index: nat, k: nat) {
    && PacketsOf(f.waiting, index) && PacketsOf([f.complete], index) && PacketsOf(f.late, index)
    && (forall e :: e in f.waiting ==> !e.possible)
    && f.complete.possible && f.complete.flushing.result in {Complete, FecRecovered}
    && RefersBack(f.complete.flushing.content, k)
  }

  /** Consecutive whole frames from the unwrapped index `u` on. */
  predicate AllWhole(frames: seq<Reception>, u: nat) {
    forall k :: 0 <= k < |frames| ==> Whole(frames[k], (u + k) % U16, k)
  }

  /** The receiver can begin with frame `u`: it is newer than the current one, and not mistaken for one just flushed. */
  predicate CanBegin(r: Receiver, u: nat) {
    && r.prev != u % U16
    && if r.cur < 0 then u < U16
       else r.cur < U16 && r.unwrapped % U16 == r.cur && 0 < u - r.unwrapped < 0x8000
  }

  /** Frame `u` is current and not flushed. */
  predicate Building(r: Receiver, u: nat) {
    r.cur == u % U16 && r.unwrapped == u && r.prev != r.cur
  }

  predicate Done(r: Receiver, u: nat) {
    r.cur == u % U16 && r.unwrapped == u && r.prev == r.cur
  }

  /** Equal but for the profile and the packets. */
  predicate Alike(r: Receiver, s: Receiver) {
    s == r.(profile := s.profile, units := s.units)
  }

  lemma {:induction false} WaitingChangesNothing(r: Receiver, events: seq<Event>, u: nat)
    requires Building(r, u) && PacketsOf(events, u % U16) && forall e :: e in events ==> !e.possible
    ensures Alike(r, RunFrom(r, events))
    decreases |events|
  {
    if events != [] {
      var before, e := events[..|events| - 1], events[|events| - 1];
      assert e in events && forall d :: d in before ==> d in events;
      WaitingChangesNothing(r, before, u);
    }
  }

  lemma {:induction false} LateChangesNothing(r: Receiver, events: seq<Event>, u: nat)
    requires Done(r, u) && PacketsOf(events, u % U16)
    ensures Alike(r, RunFrom(r, events))
    decreases |events|
  {
    if events != [] {
      var before, e := events[..|events| - 1], events[|events| - 1];
      assert e in events && forall d :: d in before ==> d in events;
      LateChangesNothing(r, before, u);
    }
  }

  /** The last frames added are the `k` frames before `u`. */
  predicate Recent(added: seq<nat>, u: nat, k: nat) {
    k <= |added| && k <= u && forall i :: |added| - k <= i < |added| ==> added[i] == (u - |added| + i) % U16
  }

  /** A reference within the last frames is there. */
  lemma ReferenceIsThere(added: seq<nat>, u: nat, k: nat, cur: int, reference: nat)
    requires Recent(added, u, k) && cur == u % U16 && reference < k && reference < 16
    ensures ReferenceIndex(cur, reference) in References(added)
  {
    var i := |added| - 1 - reference;
    AddRemainder(u, -1 - reference, U16);
    assert added[i] == ReferenceIndex(cur, reference);
    var refs := References(added);
    assert refs[i - (|added| - |refs|)] == added[i];
  }

  /** What completes a frame hands it on as it is. */
  lemma CompleteHandsOn(r: Receiver, e: Event, u: nat, k: nat)
    requires Building(r, u) && PacketsOf([e], u % U16) && e.possible && e.flushing.result in {Complete, FecRecovered}
    requires Recent(r.added, u, k) && RefersBack(e.flushing.content, k)
    ensures var s := AvPacket(r, e);
            && Done(s, u) && s.lost == 0 && s.added == r.added + [u % U16]
            && s.delivered == r.delivered + [Delivery(u, r.lost, false, e.flushing.content, |r.added|)]
  {
    hide References, ReferenceIndex, SliceOf, Recent;
    assert e in [e];
    var slice := SliceOf(e.flushing.content);
    if slice.PSlice? && slice.reference != 0xff {
      ReferenceIsThere(r.added, u, k, r.cur, slice.reference);
    }
  }

  /** The state in which the frame of a first packet finds the lists and counters. */
  function Before(r: Receiver, e: Event): Receiver {
    if r.cur >= 0 && r.prev != r.cur then FlushFrame(r, e.forced) else r
  }

  /** The first packet of a frame makes it current. */
  lemma FirstPacket(r: Receiver, e: Event, u: nat) returns (s: Receiver)
    requires CanBegin(r, u) && PacketsOf([e], u % U16)
    ensures AvPacket(r, e) == AvPacket(s, e) && Building(s, u)
    ensures var b := Before(r, e); s.added == b.added && s.delivered == b.delivered && s.lost == b.lost
  {
    hide FlushFrame, Lt, Gt;
    assert e in [e];
    var p := r.(profile := e.packet.streamIndex);
    s := Advance(p, e);
    if r.cur >= 0 {
      LaterIsNewer(r.unwrapped, u);
      FlushAlike(r, p, e.forced);
    }
    NotNewerThanItself(u % U16);
  }

  lemma FlushAlike(r: Receiver, p: Receiver, f: Flushing)
    requires r.cur >= 0 && p == r.(profile := p.profile)
    ensures FlushFrame(p, f) == FlushFrame(r, f).(profile := p.profile)
    ensures FlushFrame(r, f).prev in {r.prev, r.cur}
  {
    hide SliceOf, Substitute, PatchOf, References, ReferenceIndex;
  }

  lemma NotNewerThanItself(index: nat)
    ensures !Gt(W16, index, index) && !Lt(W16, index, index)
  {
  }

  lemma LaterIsNewer(v: nat, u: nat)
    requires 0 < u - v < 0x8000
    ensures Gt(W16, u % U16, v % U16) && !Lt(W16, u % U16, v % U16)
    ensures (u % U16 - v % U16) % U16 == u - v && u % U16 != v % U16
  {
    Compare(W16, u, v, u % U16, v % U16);
    Residues(v, u, U16);
  }

  /** A whole frame, whatever happened before its first packet, is handed on as it is. */
  lemma FrameHandedOn(r: Receiver, f: Reception, u: nat, k: nat)
    requires Whole(f, u % U16, k) && CanBegin(r, u) && Recent(Before(r, EventsOf(f)[0]).added, u, k)
    ensures var b, s := Before(r, EventsOf(f)[0]), RunFrom(r, EventsOf(f));
            && Done(s, u) && s.lost == 0 && s.added == b.added + [u % U16]
            && s.delivered == b.delivered + [Delivery(u, b.lost, false, f.complete.flushing.content, |b.added|)]
  {
    hide AvPacket, Recent, RefersBack, CanBegin, FlushFrame;
    var events := EventsOf(f);
    var first := if f.waiting == [] then f.complete else f.waiting[0];
    assert events[0] == first && first in f.waiting + [f.complete];
    var begun := FirstPacket(r, first, u);
    SameFirst(r, begun, events);
    RunInParts(begun, f.waiting + [f.complete], f.late);
    RunInParts(begun, f.waiting, [f.complete]);
    WaitingChangesNothing(begun, f.waiting, u);
    var built := RunFrom(begun, f.waiting);
    RunOne(built, f.complete);
    CompleteHandsOn(built, f.complete, u, k);
    LateChangesNothing(AvPacket(built, f.complete), f.late, u);
  }

  /** Only what the first packet makes of the state matters. */
  lemma {:induction false} SameFirst(r: Receiver, s: Receiver, events: seq<Event>)
    requires events != [] && AvPacket(r, events[0]) == AvPacket(s, events[0])
    ensures RunFrom(r, events) == RunFrom(s, events)
    decreases |events|
  {
    hide AvPacket;
    if |events| == 1 {
      assert events == [events[0]];
      RunOne(r, events[0]);
      RunOne(s, events[0]);
    } else {
      SameFirst(r, s, events[..|events| - 1]);
    }
  }

  /** The frames `all[n..]` are `frames`, from `u` on, unchanged, the ones after the first with nothing lost. */
  predicate HandsOnAll(all: seq<Delivery>, n: nat, frames: seq<Reception>, u: nat) {
    |all| == n + |frames| && forall k :: 0 <= k < |frames| ==> HandsOn(all[n + k], frames[k], u, k)
  }

  predicate HandsOn(d: Delivery, f: Reception, u: nat, k: nat) {
    d.frame == u + k && d.content == f.complete.flushing.content && !d.recovered && (k > 0 ==> d.lost == 0)
  }

  /** What `frames` make of a state. */
  predicate AllHandedOn(b: Receiver, s: Receiver, frames: seq<Reception>, u: nat)
    requires frames != []
  {
    && Done(s, u + |frames| - 1) && s.lost == 0 && Recent(s.added, u + |frames|, |frames|)
    && b.delivered <= s.delivered && HandsOnAll(s.delivered, |b.delivered|, frames, u)
    && s.delivered[|b.delivered|].lost == b.lost
  }

  lemma {:induction false} ConsecutiveFrom(r: Receiver, frames: seq<Reception>, u: nat)
    requires frames != [] && AllWhole(frames, u) && CanBegin(r, u)
    ensures AllHandedOn(Before(r, EventsOf(frames[0])[0]), RunFrom(r, AllEvents(frames)), frames, u)
    decreases |frames|
  {
    hide AvPacket, Whole, EventsOf, FlushFrame, Recent, HandsOnAll, CanBegin;
    var n := |frames| - 1;
    var rest, last := frames[..n], frames[n];
    assert Whole(last, (u + n) % U16, n);
    RunInParts(r, AllEvents(rest), EventsOf(last));
    var before := RunFrom(r, AllEvents(rest));
    if n == 0 {
      assert rest == [] && before == r;
      NothingRecent(Before(r, EventsOf(last)[0]).added, u);
      FrameHandedOn(r, last, u, 0);
      FirstHandedOn(Before(r, EventsOf(last)[0]), RunFrom(r, EventsOf(last)), frames, u);
    } else {
      assert AllWhole(rest, u);
      ConsecutiveFrom(r, rest, u);
      NextCanBegin(before, u + n - 1);
      FrameHandedOn(before, last, u + n, n);
      var b := Before(r, EventsOf(frames[0])[0]);
      NextHandedOn(b, before, RunFrom(before, EventsOf(last)), frames, u);
    }
  }

  lemma FirstHandedOn(b: Receiver, s: Receiver, frames: seq<Reception>, u: nat)
    requires |frames| == 1 && Done(s, u) && s.lost == 0 && s.added == b.added + [u % U16]
    requires s.delivered == b.delivered + [
               Delivery(u, b.lost, false, frames[0].complete.flushing.content, |b.added|)]
    ensures AllHandedOn(b, s, frames, u)
  {
  }

  lemma NextHandedOn(b: Receiver, r: Receiver, s: Receiver, frames: seq<Reception>, u: nat)
    requires |frames| > 1 && AllHandedOn(b, r, frames[..|frames| - 1], u)
    requires Done(s, u + |frames| - 1) && s.lost == 0 && s.added == r.added + [(u + |frames| - 1) % U16]
    requires var content := frames[|frames| - 1].complete.flushing.content;
             s.delivered == r.delivered + [Delivery(u + |frames| - 1, r.lost, false, content, |r.added|)]
    ensures AllHandedOn(b, s, frames, u)
  {
    hide Recent;
    OneMoreRecent(r.added, u + |frames| - 1, |frames| - 1);
    var rest := frames[..|frames| - 1];
    var n := |b.delivered|;
    forall k | 0 <= k < |frames| ensures HandsOn(s.delivered[n + k], frames[k], u, k) {
      if k < |rest| {
        assert HandsOn(r.delivered[n + k], rest[k], u, k);
      }
    }
  }

  lemma NothingRecent(added: seq<nat>, u: nat)
    ensures Recent(added, u, 0)
  {
  }

  lemma OneMoreRecent(added: seq<nat>, u: nat, k: nat)
    requires Recent(added, u, k)
    ensures Recent(added + [u % U16], u + 1, k + 1)
  {
  }

  lemma NextCanBegin(r: Receiver, u: nat)
    requires Done(r, u)
    ensures CanBegin(r, u + 1)
  {
    LaterIsNewer(u, u + 1);
  }

  /**
   After whatever run, consecutive frames that are each received completely, or sufficiently
   for recovery, and whose slices refer to frames among themselves are all handed on, in
   order and unchanged. Only the first can report losses, those from before.
   */
  lemma ConsecutiveHandedOn(events: seq<Event>, frames: seq<Reception>, u: nat)
    requires frames != [] && AllWhole(frames, u) && CanBegin(Run(events), u)
    ensures var r, s := Run(events), Run(events + AllEvents(frames));
            var n := |s.delivered| - |frames|;
            && |r.delivered| <= n <= |r.delivered| + 1 && s.delivered[..|r.delivered|] == r.delivered
            && HandsOnAll(s.delivered, n, frames, u) && s.lost == 0
  {
    hide Run, AllWhole, AllEvents, CanBegin, FlushFrame;
    RunIsRunFrom(events);
    RunIsRunFrom(events + AllEvents(frames));
    RunInParts(Init(), events, AllEvents(frames));
    ConsecutiveFrom(Run(events), frames, u);
    BeforeDelivers(Run(events), EventsOf(frames[0])[0]);
  }

  lemma BeforeDelivers(r: Receiver, e: Event)
    ensures r.delivered <= Before(r, e).delivered && |Before(r, e).delivered| <= |r.delivered| + 1
  {
  }

  /** From the beginning: everything is handed on, nothing lost and nothing recovered. */
  lemma WholeStream(frames: seq<Reception>, u: nat)
    requires frames != [] && AllWhole(frames, u) && u < U16
    ensures var s := Run(AllEvents(frames));
            && HandsOnAll(s.delivered, 0, frames, u) && s.lost == 0
            && forall k :: 0 <= k < |frames| ==> s.delivered[k].lost == 0
  {
    hide Run, AllWhole, AllEvents, RunFrom, FlushFrame, EventsOf;
    RunIsRunFrom(AllEvents(frames));
    ConsecutiveFrom(Init(), frames, u);
    var s := Run(AllEvents(frames));
    forall k | 0 <= k < |frames| ensures s.delivered[k].lost == 0 {
      assert HandsOn(s.delivered[0 + k], frames[k], u, k);
    }
  }

  /**
   Exactly when a frame that was flushed complete or recovered is handed on as it is: when it
   has no P slice, or the slice names no reference, or the frame it names, counted back from
   its own, is among the last 16 put in the list.
   */
  lemma HandedOnIff(r: Receiver, f: Flushing)
    requires r.cur >= 0 && f.result in {Complete, FecRecovered}
    ensures var s, slice := FlushFrame(r, f), SliceOf(f.content);
            s.delivered == r.delivered + [Delivery(r.unwrapped, r.lost, false, f.content, |r.added|)] <==>
            (slice.PSlice? && slice.reference != 0xff ==> IsThere(r, slice.reference))
  {
    hide SliceOf, PatchOf, IsThere, Substitute;
    var slice := SliceOf(f.content);
    if slice.PSlice? {
      ThereMeans(r, slice.reference);
    }
    var s := FlushFrame(r, f);
    if Lacks(r, slice) && s.delivered != r.delivered {
      assert s.delivered[|r.delivered|].recovered;
    }
  }

  /**
   Otherwise it is handed on as the patch that names the closest earlier frame among those
   makes it, or, without such a frame or patch, counted as lost.
   */
  lemma RepairedOrLost(r: Receiver, f: Flushing)
    requires r.cur >= 0 && f.result in {Complete, FecRecovered}
    requires var slice := SliceOf(f.content);
             slice.PSlice? && slice.reference != 0xff && !IsThere(r, slice.reference)
    ensures var s, reference := FlushFrame(r, f), SliceOf(f.content).reference;
            && (forall j: nat :: j < 16 && IsClosest(r, reference, j) && PatchOf(f.content, j).Some? ==>
                  s.delivered == r.delivered +
                    [Delivery(r.unwrapped, r.lost, true, PatchOf(f.content, j).value, |r.added|)])
            && ((forall j: nat :: j < 16 && IsClosest(r, reference, j) ==> PatchOf(f.content, j).None?) ==>
                  s.delivered == r.delivered && s.added == r.added && s.lost == r.lost + 1)
  {
    hide SliceOf, PatchOf, IsThere;
    var reference := SliceOf(f.content).reference;
    forall j: nat ensures IsThere(r, j) <==> ReferenceIndex(r.cur, j) in References(r.added) {
      ThereMeans(r, j);
    }
    hide References, ReferenceIndex;
    var found := Substitute(r.added, r.cur, reference + 1);
    assert found.Some? ==> IsClosest(r, reference, found.value);
    forall j: nat | j < 16 && IsClosest(r, reference, j) ensures found == Some(j) {
    }
  }

  /** The frame that a reference of the current one names is among the last 16 put in the list. */
  predicate IsThere(r: Receiver, reference: nat) {
    exists i :: 0 <= i < |r.added| && |r.added| - 16 <= i && r.added[i] == (r.cur - reference - 1) % 0x1_0000
  }

  lemma ThereMeans(r: Receiver, reference: nat)
    ensures IsThere(r, reference) <==> ReferenceIndex(r.cur, reference) in References(r.added)
  {
    var refs, frame := References(r.added), ReferenceIndex(r.cur, reference);
    var skipped := |r.added| - |refs|;
    forall k | 0 <= k < |refs| && refs[k] == frame ensures IsThere(r, reference) {
      assert r.added[skipped + k] == frame;
    }
    forall i | 0 <= i < |r.added| && |r.added| - 16 <= i && r.added[i] == frame ensures frame in refs {
      assert refs[i - skipped] == frame;
    }
  }

  /** Reference `j` is the first behind `reference` that is there. */
  predicate IsClosest(r: Receiver, reference: nat, j: nat) {
    reference < j && IsThere(r, j) && forall i: nat :: reference < i < j ==> !IsThere(r, i)
  }

  /**
   A packet is dropped exactly if it is at most 32767 frames behind the current one, or of a
   stream that is neither the current one nor known; any other goes into the current frame,
   or into a new one if it is up to 32767 frames ahead.
   */
  lemma TakenIff(r: Receiver, e: Event)
    requires -1 <= r.cur < 0x1_0000 && e.packet.frameIndex < 0x1_0000
    ensures var behind := r.cur >= 0 && 0 < (r.cur - e.packet.frameIndex) % 0x1_0000 < 0x8000;
            var ahead := r.cur < 0 || 0 < (e.packet.frameIndex - r.cur) % 0x1_0000 < 0x8000;
            var unknown := r.profile != e.packet.streamIndex && e.packet.streamIndex >= e.profiles;
            if behind || unknown then AvPacket(r, e) == r
            else
              var s := AvPacket(r, e);
              && s.profile == e.packet.streamIndex
              && s.cur == (if ahead then e.packet.frameIndex else r.cur)
              && s.units == (if ahead then [] else r.units) + [e.packet.frameIndex]
  {
    hide Repaired, Lacks, Lt, Gt;
    if r.cur >= 0 {
      OrderOf(e.packet.frameIndex, r.cur);
    }
  }

  lemma OrderOf(a: nat, b: nat)
    requires a < 0x1_0000 && b < 0x1_0000
    ensures Lt(W16, a, b) <==> 0 < (b - a) % 0x1_0000 < 0x8000
    ensures Gt(W16, a, b) <==> 0 < (a - b) % 0x1_0000 < 0x8000
  {
  }

  /**
   What a frame missed by FEC adds to the lost frames: the frames since the last complete
   one, itself included, unless the 16-bit indices have wrapped in between; with every wrap
   65536 are missing.
   */
  lemma LostOnMiss(r: Receiver, c: nat, u: nat, content: Content)
    requires c <= u && r.cur == u % U16 && r.complete == c % U16
    ensures var s := FlushFrame(r, Flushing(FecMissed, content));
            && s.lost == r.lost + (u - c) - 0x1_0000 * (u / 0x1_0000 - (c + 1) / 0x1_0000)
            && (s.lost == r.lost + (u - c) <==> u / 0x1_0000 == (c + 1) / 0x1_0000)
            && s.complete == r.cur && s.added == r.added + [r.cur] && s.delivered == r.delivered
  {
    AddRemainder(c, 1, U16);
  }
}
