/** Frame order and reference frames of lib/src/videoreceiver.c. */
module VideoSpec {
  import opened Common
  import opened SeqNum
  import opened FrameSpec
  import BitSpec
  import SliceSpec

  const REFERENCES := 16
  const NO_REFERENCE := SliceSpec.NO_REFERENCE

  /** What the header of a frame says. */
  datatype Parsed = NoSlice | OtherSlice | PSlice(reference: nat)

  /**
   The bytes of a frame. Of H.265 frames as far as the slice parser is modelled these are
   bits; where the parser of an IDR slice leaves the reference frame unset, `unset` is what
   happens to be there. Of other frames there is only what the parser and the patch answer.
   */
  datatype Content =
    | Bits265(bits: seq<bool>, log2: nat, unset: nat)
    | Other(slice: Parsed, patches: bool)

  /** chiaki_bitstream_slice. */
  function SliceOf(c: Content): Parsed {
    match c
    case Other(slice, _) => slice
    case Bits265(bits, log2, unset) =>
      match SliceSpec.ParseSlice(bits, log2)
      case Stopped => NoSlice
      case Got(slice) =>
        if !slice.sliceType.P? then OtherSlice
        else if slice.referenceFrame.Some? then PSlice(slice.referenceFrame.value)
        else PSlice(unset)
  }

  /** chiaki_bitstream_slice_set_reference_frame: the frame afterwards, if that succeeds. */
  function PatchOf(c: Content, reference: nat): Option<Content> {
    match c
    case Other(_, patches) => if patches then Some(c) else None
    case Bits265(bits, log2, _) =>
      var patch := SliceSpec.SetReference(bits, log2, reference);
      if patch.Got? && patch.value.found then Some(c.(bits := patch.value.bits)) else None
  }

  /** What the frame processor says and the frame it gives, when a frame is flushed. */
  datatype Flushing = Flushing(result: FlushResult, content: Content)

  /**
   A frame handed to the callback: its unwrapped index, its bytes, and how many frames had
   been put in the reference list by then.
   */
  datatype Delivery = Delivery(frame: nat, lost: int, recovered: bool, content: Content, known: nat)

  /** All frames ever put in the reference list (`added`), and the frame indices of the frame's packets (`units`). */
  datatype Receiver = Receiver(cur: int, prev: int, complete: int, profile: int, lost: int, added: seq<nat>,
                               unwrapped: nat, units: seq<nat>, delivered: seq<Delivery>)

  datatype Packet = Packet(frameIndex: nat, streamIndex: nat)

  function Init(): Receiver {
    Receiver(-1, -1, 0, -1, 0, [], 0, [], [])
  }

  /** The last 16 frames added. */
  function References(added: seq<nat>): seq<nat> {
    if |added| <= REFERENCES then added else added[|added| - REFERENCES..]
  }

  function ReferenceIndex(cur: int, reference: nat): nat {
    (cur - reference - 1) % U16
  }

  /** The first reference from `i` on that is there. */
  function Substitute(added: seq<nat>, cur: int, i: nat): (s: Option<nat>)
    ensures s.Some? ==> i <= s.value < REFERENCES && ReferenceIndex(cur, s.value) in References(added)
    ensures s.Some? ==> forall j: nat :: i <= j < s.value ==> ReferenceIndex(cur, j) !in References(added)
    ensures s.None? ==> forall j: nat :: i <= j < REFERENCES ==> ReferenceIndex(cur, j) !in References(added)
    decreases REFERENCES - i
  {
    if i >= REFERENCES then None
    else if ReferenceIndex(cur, i) in References(added) then Some(i)
    else Substitute(added, cur, i + 1)
  }

  /** A P slice whose reference frame is not there. */
  predicate Lacks(r: Receiver, slice: Parsed) {
    slice.PSlice? && slice.reference != NO_REFERENCE && ReferenceIndex(r.cur, slice.reference) !in References(r.added)
  }

  /** What is handed on of a frame: itself, patched if its reference is not there; nothing without a substitute. */
  function Repaired(r: Receiver, c: Content): Option<Content> {
    var slice := SliceOf(c);
    if !Lacks(r, slice) then Some(c)
    else
      match Substitute(r.added, r.cur, slice.reference + 1)
      case Some(i) => PatchOf(c, i)
      case None => None
  }

  /** chiaki_video_receiver_flush_frame. */
  function FlushFrame(r: Receiver, f: Flushing): (s: Receiver)
    requires r.cur >= 0
    ensures s.cur == r.cur && s.unwrapped == r.unwrapped && s.units == r.units && s.profile == r.profile
  {
    match f.result
    case Failed => r
    case FecMissed =>
      r.(lost := r.lost + r.cur - (r.complete + 1) % U16 + 1, prev := r.cur, complete := r.cur,
         added := r.added + [r.cur])
    case _ =>
      match Repaired(r, f.content)
      case None =>
        r.(lost := r.lost + 1, prev := r.cur, complete := r.cur)
      case Some(c) =>
        r.(delivered := r.delivered + [Delivery(r.unwrapped, r.lost, Lacks(r, SliceOf(f.content)), c, |r.added|)],
           lost := 0, added := r.added + [r.cur], prev := r.cur, complete := r.cur)
  }

  /** A packet and the answers to what it may lead to. */
  datatype Event = Event(packet: Packet, profiles: nat, forced: Flushing, possible: bool, flushing: Flushing)

  predicate Old(r: Receiver, p: Packet) {
    r.cur >= 0 && Lt(W16, p.frameIndex, r.cur)
  }

  predicate Newer(r: Receiver, p: Packet) {
    r.cur < 0 || Gt(W16, p.frameIndex, r.cur)
  }

  /** Rejected for its age or its unknown stream. */
  predicate Ignored(r: Receiver, e: Event) {
    Old(r, e.packet) || (r.profile != e.packet.streamIndex && e.packet.streamIndex >= e.profiles)
  }

  /** The frame the packet belongs to becomes the current one; the one before it is flushed if that has not happened. */
  function Advance(r: Receiver, e: Event): (s: Receiver)
    ensures s.cur >= 0
  {
    if Newer(r, e.packet) then
      var flushed := if r.cur >= 0 && r.prev != r.cur then FlushFrame(r, e.forced) else r;
      flushed.(cur := e.packet.frameIndex, units := [],
               unwrapped := if r.cur < 0 then e.packet.frameIndex
                            else r.unwrapped + (e.packet.frameIndex - r.cur) % U16)
    else r
  }

  /** chiaki_video_receiver_av_packet. */
  function AvPacket(r: Receiver, e: Event): Receiver {
    if Ignored(r, e) then r
    else
      var s := Advance(r.(profile := e.packet.streamIndex), e);
      var t := s.(units := s.units + [e.packet.frameIndex]);
      if t.cur != t.prev && e.possible then FlushFrame(t, e.flushing) else t
  }

  function Run(events: seq<Event>): Receiver
    decreases |events|
  {
    if events == [] then Init() else AvPacket(Run(events[..|events| - 1]), events[|events| - 1])
  }

  predicate WireEvents(events: seq<Event>) {
    forall e :: e in events ==> e.packet.frameIndex < U16
  }

  /** The invariant of every run. */
  ghost predicate Inv(r: Receiver) {
    && -1 <= r.cur < U16 && r.unwrapped % U16 == (if r.cur < 0 then 0 else r.cur)
    && (forall i, j :: 0 <= i < j < |r.delivered| ==> r.delivered[i].frame < r.delivered[j].frame)
    && (|r.delivered| > 0 ==>
          var last := r.delivered[|r.delivered| - 1].frame;
          r.cur >= 0 && last <= r.unwrapped && (last == r.unwrapped ==> r.prev == r.cur))
  }

  lemma FlushKeepsInv(r: Receiver, f: Flushing)
    requires Inv(r) && r.cur >= 0 && r.prev != r.cur
    ensures Inv(FlushFrame(r, f))
  {
  }

  lemma AdvanceKeepsInv(r: Receiver, e: Event)
    requires Inv(r) && e.packet.frameIndex < U16
    ensures Inv(Advance(r, e))
  {
    hide FlushFrame, Gt;
    var p := e.packet;
    if Newer(r, p) && r.cur >= 0 {
      if r.prev != r.cur {
        FlushKeepsInv(r, e.forced);
      }
      UnwrappedStep(r.unwrapped, r.cur, p.frameIndex);
    }
  }

  lemma UnwrappedStep(unwrapped: nat, cur: nat, index: nat)
    requires cur < U16 && index < U16 && unwrapped % U16 == cur && Gt(W16, index, cur)
    ensures (unwrapped + (index - cur) % U16) % U16 == index && (index - cur) % U16 > 0
  {
    GtDiffers(index, cur);
    hide Gt;
    var d, q := if index > cur then index - cur else index - cur + U16, unwrapped / U16;
    DivModUnique(index - cur, U16, if index > cur then 0 else -1, d);
    assert unwrapped == U16 * q + cur;
    DivModUnique(unwrapped + d, U16, if index > cur then q else q + 1, index);
  }

  lemma GtDiffers(index: nat, cur: nat)
    requires Gt(W16, index, cur)
    ensures index != cur
  {
  }

  /** Frames are handed on in strictly increasing order, so each at most once. */
  lemma {:induction false} DeliveredInOrder(events: seq<Event>)
    requires WireEvents(events)
    ensures Inv(Run(events))
    decreases |events|
  {
    hide FlushFrame, Advance, Ignored;
    if events != [] {
      var before, e := events[..|events| - 1], events[|events| - 1];
      assert e in events;
      DeliveredInOrder(before);
      var r := Run(before);
      AdvanceKeepsInv(r.(profile := e.packet.streamIndex), e);
      var s := Advance(r.(profile := e.packet.streamIndex), e);
      if s.cur != s.prev {
        FlushKeepsInv(s.(units := s.units + [e.packet.frameIndex]), e.flushing);
      }
    }
  }

  /** Parsing the frame reports no reference, or one that is among `refs`. */
  predicate RefersTo(c: Content, cur: int, refs: seq<nat>) {
    c.Bits265? ==>
      var slice := SliceSpec.ParseSlice(c.bits, c.log2);
      slice.Got? && slice.value.sliceType.P? && slice.value.referenceFrame.Some? ==>
        var reference := slice.value.referenceFrame.value;
        reference == NO_REFERENCE || ReferenceIndex(cur, reference) in refs
  }

  /** What was handed on refers to a frame that was in the reference list at that time. */
  ghost predicate Decodable(d: Delivery, added: seq<nat>) {
    d.known <= |added| && RefersTo(d.content, d.frame % U16, References(added[..d.known]))
  }

  ghost predicate AllDecodable(r: Receiver) {
    forall d :: d in r.delivered ==> Decodable(d, r.added)
  }

  lemma RepairedRefers(r: Receiver, c: Content)
    requires Repaired(r, c).Some?
    ensures RefersTo(Repaired(r, c).value, r.cur, References(r.added))
  {
    hide SliceSpec.ParseSlice, SliceSpec.SetReference, References, ReferenceIndex, Substitute;
    if Lacks(r, SliceOf(c)) {
      var i := Substitute(r.added, r.cur, SliceOf(c).reference + 1).value;
      if c.Bits265? {
        SliceSpec.PatchIsSeen(c.bits, c.log2, i);
      }
    }
  }

  /** Deliveries stay decodable when the list grows. */
  lemma AddingKeepsDecodable(r: Receiver, s: Receiver)
    requires AllDecodable(r) && s.delivered == r.delivered && r.added <= s.added
    ensures AllDecodable(s)
  {
    forall d | d in s.delivered ensures Decodable(d, s.added) {
      assert Decodable(d, r.added);
      assert s.added[..d.known] == r.added[..d.known];
    }
  }

  lemma FlushKeepsDecodable(r: Receiver, f: Flushing)
    requires AllDecodable(r) && r.cur >= 0 && r.unwrapped % U16 == r.cur
    ensures AllDecodable(FlushFrame(r, f))
  {
    hide Repaired, RefersTo, References, AllDecodable;
    var s := FlushFrame(r, f);
    AddingKeepsDecodable(r, s.(delivered := r.delivered));
    if s.delivered != r.delivered {
      var d := s.delivered[|r.delivered|];
      RepairedRefers(r, f.content);
      assert s.added[..d.known] == r.added;
      OneMoreDecodable(s.(delivered := r.delivered), d);
    } else {
      AddingKeepsDecodable(r, s);
    }
  }

  lemma OneMoreDecodable(r: Receiver, d: Delivery)
    requires AllDecodable(r) && Decodable(d, r.added)
    ensures AllDecodable(r.(delivered := r.delivered + [d]))
  {
  }

  /**
   Over every run: whatever the parser reports of a frame as it was handed on, patched or
   not, is no reference or a frame that was in the reference list at that time.
   */
  lemma {:induction false} DeliveredReferencesPresent(events: seq<Event>)
    requires WireEvents(events)
    ensures AllDecodable(Run(events))
    decreases |events|
  {
    hide FlushFrame, Ignored, AllDecodable, Newer, Inv;
    if events == [] {
      NothingDelivered();
    } else {
      var before, e := events[..|events| - 1], events[|events| - 1];
      assert e in events;
      DeliveredReferencesPresent(before);
      DeliveredInOrder(before);
      var r := Run(before).(profile := e.packet.streamIndex);
      AddingKeepsDecodable(Run(before), r);
      InvIsRight(Run(before), r);
      if Newer(r, e.packet) && r.cur >= 0 && r.prev != r.cur {
        FlushKeepsDecodable(r, e.forced);
        AddingKeepsDecodable(FlushFrame(r, e.forced), Advance(r, e));
      } else {
        AddingKeepsDecodable(r, Advance(r, e));
      }
      AdvanceKeepsInv(r, e);
      var t := Advance(r, e).(units := Advance(r, e).units + [e.packet.frameIndex]);
      AddingKeepsDecodable(Advance(r, e), t);
      if t.cur != t.prev {
        InvIsRight(Advance(r, e), t);
        FlushKeepsDecodable(t, e.flushing);
      }
    }
  }

  lemma NothingDelivered()
    ensures AllDecodable(Init())
  {
  }

  lemma InvIsRight(r: Receiver, s: Receiver)
    requires Inv(r) && s == r.(profile := s.profile, units := s.units)
    ensures Inv(s) && (s.cur >= 0 ==> s.unwrapped % U16 == s.cur)
  {
  }

  /** A packet exactly half the index space away is neither old nor new, and ends up in the wrong frame. */
  predicate HalfAway(r: Receiver, p: Packet) {
    r.cur >= 0 && (p.frameIndex - r.cur) % U16 == 0x8000
  }

  /** Frame 2^15 after frame 0, at its beginning: its packet goes into frame 0. */
  lemma HalfAwayJoins(f: Flushing)
    ensures var r := Run([PacketOf(0, f), PacketOf(0x8000, f)]); r.cur == 0 && r.units == [0, 0x8000]
  {
    var first, second := PacketOf(0, f), PacketOf(0x8000, f);
    assert [first, second][..1] == [first] && [first][..0] == [];
    assert Run([]) == Init();
    assert Run([first]).units == [] + [0] == [0];
    assert Run([first, second]).units == [0] + [0x8000];
  }

  function PacketOf(frame: nat, f: Flushing): Event {
    Event(Packet.Packet(frame, 0), 1, f, false, f)
  }

  /** The frame's packets keep belonging to it exactly as long as no such packet is taken. */
  lemma UnitsBelong(r: Receiver, e: Event)
    requires -1 <= r.cur < U16 && e.packet.frameIndex < U16 && !Ignored(r, e)
    requires forall u :: u in r.units ==> u == r.cur
    ensures var s := AvPacket(r, e);
            (forall u :: u in s.units ==> u == s.cur) <==> !HalfAway(r, e.packet)
  {
    var s := Advance(r.(profile := e.packet.streamIndex), e);
    assert AvPacket(r, e).units == s.units + [e.packet.frameIndex];
    assert e.packet.frameIndex in s.units + [e.packet.frameIndex];
  }
}

module Video {
  import opened Common
  import opened SeqNum
  import opened FrameSpec
  import opened VideoSpec

  class VideoReceiver {
    const profilesCount: nat
    var profileCur: int
    var frameIndexCur: int
    var frameIndexPrev: int
    var frameIndexPrevComplete: int
    var framesLost: int
    const referenceFrames: array<int>

    /** What was added, put and handed on. */
    ghost var added: seq<nat>
    ghost var unwrapped: nat
    ghost var units: seq<nat>
    ghost var delivered: seq<Delivery>

    ghost function Model(): Receiver
      reads this
    {
      Receiver(frameIndexCur, frameIndexPrev, frameIndexPrevComplete, profileCur, framesLost, added, unwrapped,
               units, delivered)
    }

    /** The array holds the last 16 added frames, the newest first, at its end while there are fewer. */
    ghost predicate Valid()
      reads this, referenceFrames
    {
      && referenceFrames.Length == REFERENCES
      && forall i :: 0 <= i < REFERENCES ==> referenceFrames[i] == RefAt(added, i)
    }

    constructor (profilesCount: nat)
      ensures Valid() && Model() == Init() && fresh(referenceFrames) && this.profilesCount == profilesCount
    {
      this.profilesCount := profilesCount;
      profileCur, frameIndexCur, frameIndexPrev, frameIndexPrevComplete, framesLost := -1, -1, -1, 0, 0;
      referenceFrames := new int[REFERENCES](_ => -1);
      added, unwrapped, units, delivered := [], 0, [], [];
    }

    /** add_ref_frame. */
    method AddRefFrame(frame: nat)
      requires Valid()
      modifies this`added, referenceFrames
      ensures Valid() && added == old(added) + [frame]
    {
      ghost var n := |added|;
      added := added + [frame];
      if referenceFrames[0] != -1 {
        forall i | 1 <= i < REFERENCES {
          referenceFrames[i] := referenceFrames[i - 1];
        }
        referenceFrames[0] := frame;
        return;
      }
      var i := REFERENCES - 1;
      while i >= 0
        invariant 15 - n <= i < REFERENCES
        invariant forall j :: 0 <= j < REFERENCES ==> referenceFrames[j] == RefAt(old(added), j)
      {
        if referenceFrames[i] == -1 {
          referenceFrames[i] := frame;
          return;
        }
        i := i - 1;
      }
    }

    /** have_ref_frame. */
    method HaveRefFrame(frame: nat) returns (have: bool)
      requires Valid()
      ensures have <==> frame in References(added)
    {
      RefsAreReferences(added, frame);
      for i := 0 to REFERENCES
        invariant forall j :: 0 <= j < i ==> referenceFrames[j] != frame
      {
        if referenceFrames[i] == frame {
          assert RefAt(added, i) == frame;
          return true;
        }
      }
      have := false;
    }

    /** Lines 242-281: a reference frame that is not there is replaced in the frame by one that is. */
    method CheckReference(content: Content) returns (succ: bool, recovered: bool, after: Content)
      requires Valid() && frameIndexCur >= 0
      ensures succ <==> Repaired(Model(), content).Some?
      ensures succ ==> Repaired(Model(), content) == Some(after)
      ensures succ ==> (recovered <==> Lacks(Model(), SliceOf(content)))
    {
      hide References, ReferenceIndex, Substitute, SliceOf, PatchOf;
      recovered, after := false, content;
      var slice := SliceOf(content);
      if !slice.PSlice? || slice.reference == NO_REFERENCE {
        return true, false, content;
      }
      IndexIs(frameIndexCur, slice.reference);
      var have := HaveRefFrame((frameIndexCur - slice.reference - 1) % U16);
      if have {
        return true, false, content;
      }
      var i := slice.reference + 1;
      while i < REFERENCES
        invariant Substitute(added, frameIndexCur, slice.reference + 1) == Substitute(added, frameIndexCur, i)
        decreases REFERENCES - i
      {
        IndexIs(frameIndexCur, i);
        SubstituteNext(added, frameIndexCur, i);
        have := HaveRefFrame((frameIndexCur - i - 1) % U16);
        if have {
          var patched := PatchOf(content, i);
          return patched.Some?, patched.Some?, if patched.Some? then patched.value else content;
        }
        i := i + 1;
      }
      SubstituteEnd(added, frameIndexCur, i);
      succ := false;
    }

    method FlushFrame(f: Flushing) returns (ok: bool)
      requires Valid() && frameIndexCur >= 0
      modifies this, referenceFrames
      ensures Valid() && Model() == VideoSpec.FlushFrame(old(Model()), f)
      ensures ok <==> f.result != Failed
    {
      if f.result == Failed {
        return false;
      }
      if f.result == FecMissed {
        var nextFrameExpected := (frameIndexPrevComplete + 1) % U16;
        framesLost := framesLost + frameIndexCur - nextFrameExpected + 1;
        frameIndexPrev, frameIndexPrevComplete := frameIndexCur, frameIndexCur;
        AddRefFrame(frameIndexCur);
        return true;
      }
      hide Repaired, SliceOf, PatchOf;
      var succ, recovered, after := CheckReference(f.content);
      if !succ {
        framesLost := framesLost + 1;
        frameIndexPrev, frameIndexPrevComplete := frameIndexCur, frameIndexCur;
        return true;
      }
      delivered := delivered + [Delivery(unwrapped, framesLost, recovered, after, |added|)];
      framesLost := 0;
      AddRefFrame(frameIndexCur);
      frameIndexPrev, frameIndexPrevComplete := frameIndexCur, frameIndexCur;
      ok := true;
    }

    method AvPacket(e: Event)
      requires Valid() && e.profiles == profilesCount
      modifies this, referenceFrames
      ensures Valid() && Model() == VideoSpec.AvPacket(old(Model()), e)
    {
      hide VideoSpec.FlushFrame, Lt, Gt;
      var frameIndex := e.packet.frameIndex;
      if frameIndexCur >= 0 && Lt(W16, frameIndex, frameIndexCur) {
        return;
      }
      if profileCur < 0 || profileCur != e.packet.streamIndex {
        if e.packet.streamIndex >= profilesCount {
          return;
        }
        profileCur := e.packet.streamIndex;
      }
      if frameIndexCur < 0 || Gt(W16, frameIndex, frameIndexCur) {
        ghost var base := frameIndexCur;
        if frameIndexCur >= 0 && frameIndexPrev != frameIndexCur {
          var _ := FlushFrame(e.forced);
        }
        frameIndexCur := frameIndex;
        unwrapped := if base < 0 then frameIndex else unwrapped + (frameIndex - base) % U16;
        units := [];
      }
      units := units + [frameIndex];
      if frameIndexCur != frameIndexPrev {
        if e.possible {
          var _ := FlushFrame(e.flushing);
        }
      }
    }
  }

  function RefAt(added: seq<nat>, i: nat): int
    requires i < REFERENCES
  {
    if |added| >= REFERENCES then added[|added| - 1 - i]
    else if i < REFERENCES - |added| then -1
    else added[REFERENCES - 1 - i]
  }

  lemma IndexIs(cur: int, reference: nat)
    ensures ReferenceIndex(cur, reference) == (cur - reference - 1) % U16
  {
  }

  lemma SubstituteNext(added: seq<nat>, cur: int, i: nat)
    requires i < REFERENCES
    ensures Substitute(added, cur, i)
         == if ReferenceIndex(cur, i) in References(added) then Some(i) else Substitute(added, cur, i + 1)
  {
  }

  lemma SubstituteEnd(added: seq<nat>, cur: int, i: nat)
    requires i >= REFERENCES
    ensures Substitute(added, cur, i) == None
  {
  }

  lemma RefsAreReferences(added: seq<nat>, frame: nat)
    ensures frame in References(added) <==> exists i: nat :: i < REFERENCES && RefAt(added, i) == frame
  {
    var refs := References(added);
    forall k: nat | k < |refs| && refs[k] == frame
      ensures exists i: nat :: i < REFERENCES && RefAt(added, i) == frame
    {
      var i := REFERENCES - 1 - k;
      assert RefAt(added, i) == frame;
    }
    forall i: nat | i < REFERENCES && RefAt(added, i) == frame ensures frame in refs {
      assert refs[REFERENCES - 1 - i] == frame;
    }
  }
}
