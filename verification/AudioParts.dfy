/**
 A run of the audio reassembler seen from the packets alone: which of them begin a new part,
 and that generations, slots, output and frame numbers are those of the parts.
 */
module AudioParts {
  import opened Common
  import opened FecSpec
  import opened AudioSpec
  import opened AudioRuns

  /** The packets of every ended generation, and of the one in progress if there is one. */
  datatype Parts = Parts(ended: seq<seq<Event>>, current: seq<Event>)

  /** Whether a packet can go into a generation that `first` has started. */
  predicate Fits(first: Packet, p: Packet) {
    p.unitIndex < first.total && |p.data| > 0
  }

  /** The unit indices that have arrived. */
  function Arrived(part: seq<Event>): set<nat>
    requires part != []
  {
    set e | e in part && Fits(part[0].packet, e.packet) :: e.packet.unitIndex
  }

  predicate Late(first: Event, e: Event) {
    first.started > 0 && (e.now - first.started) % U64 > 150_000
  }

  /** What makes a packet begin a new part while one is in progress (lines 228-276). */
  predicate Restarts(part: seq<Event>, e: Event)
    requires part != []
  {
    var first, p := part[0].packet, e.packet;
    || Late(part[0], e) || p.unitIndex == 0
    || |Arrived(part)| == first.total || p.unitIndex >= first.total
    || p.total != first.total || p.fec != first.fec
  }

  predicate Begins(parts: Parts, e: Event) {
    parts.current == [] || Restarts(parts.current, e)
  }

  function Extend(parts: Parts, e: Event): Parts {
    if !Begins(parts, e) then parts.(current := parts.current + [e])
    else
      Parts(if parts.current == [] then parts.ended else parts.ended + [parts.current],
            if CanStart(e.packet) then [e] else [])
  }

  function PartsOf(events: seq<Event>): Parts {
    if events == [] then Parts([], []) else Extend(PartsOf(events[..|events| - 1]), events[|events| - 1])
  }

  predicate Started?(part: seq<Event>) {
    part != [] && CanStart(part[0].packet)
  }

  predicate Sound(parts: Parts) {
    (forall part :: part in parts.ended ==> Started?(part)) && (parts.current != [] ==> Started?(parts.current))
  }

  function Into(g: Generation, p: Packet): (h: Generation)
    requires WellFormed(g)
    ensures WellFormed(h) && h.id == g.id
    ensures Store(g, p).state == State(g.id, Some(h))
  {
    if Accepts(g, p) then Stored(g, p) else g
  }

  /** The generation that a part is collected in. */
  function GenerationOf(id: nat, part: seq<Event>): (g: Generation)
    requires Started?(part)
    ensures WellFormed(g) && g.id == id
  {
    var n := |part| - 1;
    Into(if n == 0 then Started(id, part[0].packet, part[0].started) else GenerationOf(id, part[..n]), part[n].packet)
  }

  /** The first packet of a unit, which is the one that is kept. */
  function FirstOf(part: seq<Event>, i: nat): (first: Option<Event>)
    ensures first.Some? ==> first.value in part && first.value.packet.unitIndex == i && |first.value.packet.data| > 0
  {
    if part == [] then None
    else
      var init, e := part[..|part| - 1], part[|part| - 1];
      var first := FirstOf(init, i);
      if first.Some? then first
      else if e.packet.unitIndex == i && |e.packet.data| > 0 then Some(e) else None
  }

  lemma {:induction false} ArrivedIsFirst(part: seq<Event>, i: nat)
    ensures FirstOf(part, i).Some? <==> exists e :: e in part && e.packet.unitIndex == i && |e.packet.data| > 0
  {
    if part != [] {
      var init, e := part[..|part| - 1], part[|part| - 1];
      assert part == init + [e];
      ArrivedIsFirst(init, i);
    }
  }

  lemma ArrivedIff(part: seq<Event>, i: nat)
    requires part != []
    ensures i in Arrived(part) <==> i < part[0].packet.total && FirstOf(part, i).Some?
  {
    ArrivedIsFirst(part, i);
  }

  /** What a generation has in its slots: of each unit the first packet that arrived, cut or filled up to size. */
  ghost predicate HoldsPart(g: Generation, part: seq<Event>)
    requires Started?(part)
  {
    var first := part[0].packet;
    && WellFormed(g) && g.k + g.m == first.total && g.m == first.fec && g.unitSize == |first.data|
    && g.first == first.frameIndex && g.start == part[0].started
    && forall i: nat :: i < first.total ==> HoldsFirst(g, part, i)
  }

  ghost predicate HoldsFirst(g: Generation, part: seq<Event>, i: nat)
    requires i < |g.units| == |g.haptics|
  {
    match FirstOf(part, i)
    case None => g.units[i] == [] && !g.haptics[i]
    case Some(e) => g.units[i] == Fitted(e.packet.data, g.unitSize) && g.haptics[i] == e.packet.isHaptics
  }

  lemma {:induction false} SlotsOfPart(id: nat, part: seq<Event>)
    requires Started?(part)
    ensures HoldsPart(GenerationOf(id, part), part)
    decreases |part|
  {
    hide Received, Fitted;
    var n := |part| - 1;
    if n > 0 {
      SlotsOfPart(id, part[..n]);
      IntoHolds(GenerationOf(id, part[..n]), part[..n], part[n]);
      assert part == part[..n] + [part[n]];
    } else {
      assert part[..n] == [];
    }
  }

  lemma IntoHolds(g: Generation, part: seq<Event>, e: Event)
    requires Started?(part) && HoldsPart(g, part)
    ensures HoldsPart(Into(g, e.packet), part + [e])
  {
    hide Received, Fitted, FirstOf;
    var more := part + [e];
    assert more[0] == part[0];
    forall i: nat | i < part[0].packet.total ensures HoldsFirst(Into(g, e.packet), more, i) {
      assert HoldsFirst(g, part, i);
      FirstOfMore(part, e, i);
    }
  }

  lemma FirstOfMore(part: seq<Event>, e: Event, i: nat)
    ensures FirstOf(part + [e], i) ==
            if FirstOf(part, i).Some? then FirstOf(part, i)
            else if e.packet.unitIndex == i && |e.packet.data| > 0 then Some(e) else None
  {
    assert (part + [e])[..|part|] == part;
  }

  /** It counts the distinct units. */
  lemma CountOfPart(g: Generation, part: seq<Event>)
    requires Started?(part) && HoldsPart(g, part)
    ensures Received(g.units, g.k + g.m) == |Arrived(part)|
  {
    hide Received, Fitted;
    ReceivedIsCardinality(g.units, g.k + g.m);
    forall i: nat | i < |g.units| ensures i in Arrived(part) <==> g.units[i] != [] {
      ArrivedIff(part, i);
      assert HoldsFirst(g, part, i);
    }
    forall i | i in Arrived(part) ensures i < |g.units| {
      ArrivedIff(part, i);
    }
    assert (set i: nat | i < g.k + g.m && g.units[i] != []) == Arrived(part);
  }

  /** The reassembler ends a generation for exactly the packets that begin a new part. */
  lemma EndsIffBegins(id: nat, part: seq<Event>, e: Event)
    requires Started?(part)
    ensures Supersedes(GenerationOf(id, part), e.packet, e.now) <==> Restarts(part, e)
  {
    hide Received, Arrived, GenerationOf;
    SlotsOfPart(id, part);
    CountOfPart(GenerationOf(id, part), part);
  }

  /** The output of the ended parts. */
  function Ended(decode: Decode, parts: seq<seq<Event>>): seq<AudioFrame>
    requires forall part :: part in parts ==> Started?(part)
  {
    if parts == [] then []
    else
      var last := parts[|parts| - 1];
      Ended(decode, parts[..|parts| - 1]) + Fate(decode, GenerationOf(|parts|, last))
  }

  /** What has been handed on of a generation in progress. */
  function SoFar(g: Generation): seq<AudioFrame>
    requires WellFormed(g)
  {
    if g.emitted then Emit(g, g.units, g.k) else []
  }

  function StateOf(parts: Parts): State
    requires Sound(parts)
  {
    var n := |parts.ended|;
    if parts.current == [] then State(n, None) else State(n + 1, Some(GenerationOf(n + 1, parts.current)))
  }

  function OutputOf(decode: Decode, parts: Parts): seq<AudioFrame>
    requires Sound(parts)
  {
    Ended(decode, parts.ended) +
    if parts.current == [] then [] else SoFar(GenerationOf(|parts.ended| + 1, parts.current))
  }

  lemma SoFarAndEnding(decode: Decode, g: Generation)
    requires WellFormed(g)
    ensures SoFar(g) + Ending(decode, g) == Fate(decode, g)
  {
    if g.emitted {
      EmittedFate(decode, g);
    }
  }

  lemma SoFarGrows(g: Generation, p: Packet)
    requires WellFormed(g)
    ensures SoFar(g) + Store(g, p).frames == SoFar(Into(g, p))
  {
    hide Received, Emit, Fitted;
    if Accepts(g, p) && g.emitted {
      StoredAgain(g, p);
    }
  }

  lemma EndedOneMore(decode: Decode, parts: seq<seq<Event>>, part: seq<Event>)
    requires Started?(part) && forall q :: q in parts ==> Started?(q)
    ensures forall q :: q in parts + [part] ==> Started?(q)
    ensures Ended(decode, parts + [part]) == Ended(decode, parts) + Fate(decode, GenerationOf(|parts| + 1, part))
  {
    hide Fate, GenerationOf, Started?;
    var more := parts + [part];
    assert more[..|parts|] == parts && more[|parts|] == part;
    forall q | q in more ensures Started?(q) {
      assert q in parts || q == part;
    }
  }

  lemma ExtendSound(parts: Parts, e: Event)
    requires Sound(parts)
    ensures Sound(Extend(parts, e))
  {
  }

  lemma Step(decode: Decode, parts: Parts, e: Event)
    requires Sound(parts) && Valid(StateOf(parts))
    ensures Sound(Extend(parts, e))
    ensures var o := Put(decode, StateOf(parts), e.packet, e.now, e.started);
            && o.state == StateOf(Extend(parts, e))
            && OutputOf(decode, parts) + o.frames == OutputOf(decode, Extend(parts, e))
  {
    hide Put, StateOf, OutputOf, Restarts, CanStart, GenerationOf;
    if parts.current == [] {
      Begin(decode, parts, e);
    } else if Restarts(parts.current, e) {
      Restart(decode, parts, e);
    } else {
      Stay(decode, parts, e);
    }
  }

  /** A packet goes into the part in progress. */
  lemma Stay(decode: Decode, parts: Parts, e: Event)
    requires Sound(parts) && parts.current != [] && !Restarts(parts.current, e)
    ensures var o, after := Put(decode, StateOf(parts), e.packet, e.now, e.started), Extend(parts, e);
            && Sound(after) && o.state == StateOf(after)
            && OutputOf(decode, parts) + o.frames == OutputOf(decode, after)
  {
    hide Received, Supersedes, Restarts, SoFar, Ended, Store, Into, GenerationOf;
    var id := |parts.ended| + 1;
    var g := GenerationOf(id, parts.current);
    EndsIffBegins(id, parts.current, e);
    SoFarGrows(g, e.packet);
    IntoMore(id, parts.current, e);
    ConcatLater(Ended(decode, parts.ended), SoFar(g), Store(g, e.packet).frames);
  }

  /** A packet ends the part in progress, and begins another if it can. */
  lemma Restart(decode: Decode, parts: Parts, e: Event)
    requires Sound(parts) && parts.current != [] && Restarts(parts.current, e)
    ensures var o, after := Put(decode, StateOf(parts), e.packet, e.now, e.started), Extend(parts, e);
            && Sound(after) && o.state == StateOf(after)
            && OutputOf(decode, parts) + o.frames == OutputOf(decode, after)
  {
    hide Restarts, Ending, SoFar, Ended, OutputOf, GenerationOf, Fate;
    var id, idle := |parts.ended| + 1, Parts(parts.ended + [parts.current], []);
    var g := GenerationOf(id, parts.current);
    var o := Put(decode, StateOf(parts), e.packet, e.now, e.started);
    EndedOneMore(decode, parts.ended, parts.current);
    RestartPut(decode, id, parts.current, e);
    Begin(decode, idle, e);
    assert Extend(idle, e) == Extend(parts, e);
    OutputOfIdle(decode, parts, g);
    var out, ending, own := OutputOf(decode, parts), Ending(decode, g), OwnFrames(id + 1, e);
    ConcatLater(out, ending, own);
    assert out + o.frames == (out + ending) + own == OutputOf(decode, idle) + own;
  }

  /** Ending the part in progress puts out the rest of it. */
  lemma OutputOfIdle(decode: Decode, parts: Parts, g: Generation)
    requires Sound(parts) && parts.current != [] && g == GenerationOf(|parts.ended| + 1, parts.current)
    requires Sound(Parts(parts.ended + [parts.current], []))
    ensures OutputOf(decode, parts) + Ending(decode, g) == OutputOf(decode, Parts(parts.ended + [parts.current], []))
  {
    hide Ending, SoFar, Ended, GenerationOf, Fate;
    SoFarAndEnding(decode, g);
    EndedOneMore(decode, parts.ended, parts.current);
    var ended := Ended(decode, parts.ended);
    ConcatLater(ended, SoFar(g), Ending(decode, g));
    assert ended + Fate(decode, g) == Ended(decode, parts.ended + [parts.current]);
    assert Ended(decode, parts.ended + [parts.current]) + [] == Ended(decode, parts.ended + [parts.current]);
  }

  /** Such a packet leaves the same state as with nothing in progress, and puts out the rest first. */
  lemma RestartPut(decode: Decode, id: nat, part: seq<Event>, e: Event)
    requires Started?(part) && Restarts(part, e)
    ensures var g := GenerationOf(id, part);
            var o := Put(decode, State(id, Some(g)), e.packet, e.now, e.started);
            && o.state == Put(decode, State(id, None), e.packet, e.now, e.started).state
            && o.frames == Ending(decode, g) + OwnFrames(id + 1, e)
  {
    hide Received, Restarts, Ending, GenerationOf, Supersedes, Store;
    EndsIffBegins(id, part, e);
    assert Ending(decode, GenerationOf(id, part)) + [] == Ending(decode, GenerationOf(id, part));
  }

  lemma IntoMore(id: nat, part: seq<Event>, e: Event)
    requires Started?(part)
    ensures Started?(part + [e]) && GenerationOf(id, part + [e]) == Into(GenerationOf(id, part), e.packet)
  {
    assert (part + [e])[..|part|] == part;
  }

  function OwnFrames(id: nat, e: Event): seq<AudioFrame> {
    if CanStart(e.packet) then Store(Started(id, e.packet, e.started), e.packet).frames else []
  }

  /** With nothing in progress, a packet begins a part if it can. */
  lemma Begin(decode: Decode, parts: Parts, e: Event)
    requires Sound(parts) && parts.current == []
    ensures var o, after := Put(decode, StateOf(parts), e.packet, e.now, e.started), Extend(parts, e);
            && Sound(after) && o.state == StateOf(after) && o.frames == OwnFrames(|parts.ended| + 1, e)
            && OutputOf(decode, parts) + o.frames == OutputOf(decode, after)
  {
    hide Received, Ended, Fitted, Emit;
    if CanStart(e.packet) {
      var g := Started(|parts.ended| + 1, e.packet, e.started);
      SoFarGrows(g, e.packet);
    }
  }

  /**
   Over every run: the generations are the parts, each with the slots that its packets fill,
   and the output is the fate of each ended part, in order, and what is out of the part in
   progress.
   */
  lemma {:induction false} RunIsParts(decode: Decode, events: seq<Event>)
    ensures Sound(PartsOf(events))
    ensures Run(decode, events) == History(StateOf(PartsOf(events)), OutputOf(decode, PartsOf(events)))
    decreases |events|
  {
    hide Put, OutputOf, StateOf, Extend;
    if events == [] {
      NoParts(decode);
    } else {
      RunIsParts(decode, events[..|events| - 1]);
      Step(decode, PartsOf(events[..|events| - 1]), events[|events| - 1]);
    }
  }

  lemma NoParts(decode: Decode)
    ensures Sound(Parts([], [])) && StateOf(Parts([], [])) == State(0, None) && OutputOf(decode, Parts([], [])) == []
  {
  }

  /** The part of generation `id`. */
  function PartFor(parts: Parts, id: nat): seq<Event> {
    if 1 <= id <= |parts.ended| then parts.ended[id - 1] else parts.current
  }

  lemma {:induction false} EndedMember(decode: Decode, parts: seq<seq<Event>>, f: AudioFrame)
    requires (forall part :: part in parts ==> Started?(part)) && f in Ended(decode, parts)
    ensures 1 <= f.generation <= |parts|
    ensures f in Fate(decode, GenerationOf(f.generation, parts[f.generation - 1]))
  {
    hide Fate;
    var n := |parts| - 1;
    if f in Ended(decode, parts[..n]) {
      EndedMember(decode, parts[..n], f);
    } else {
      FateMember(decode, GenerationOf(|parts|, parts[n]), f);
    }
  }

  lemma FateMember(decode: Decode, g: Generation, f: AudioFrame)
    requires WellFormed(g) && f in Fate(decode, g)
    ensures f.unit < g.k && FinalUnits(decode, g)[f.unit] != []
    ensures f == AudioFrame(g.id, f.unit, (g.first + f.unit) % U16, FinalUnits(decode, g)[f.unit], g.haptics[f.unit])
  {
    EmitMember(g, FinalUnits(decode, g), g.k, f);
  }

  lemma {:induction false} EmitMember(g: Generation, units: seq<Unit>, n: nat, f: AudioFrame)
    requires n <= |units| && n <= |g.haptics| && f in Emit(g, units, n)
    ensures f.unit < n && units[f.unit] != []
    ensures f == AudioFrame(g.id, f.unit, (g.first + f.unit) % U16, units[f.unit], g.haptics[f.unit])
  {
    if f in Emit(g, units, n - 1) {
      EmitMember(g, units, n - 1, f);
    }
  }

  /** Every frame is handed on of the part that its generation number names. */
  lemma FrameOfPart(decode: Decode, events: seq<Event>, f: AudioFrame)
    requires f in Run(decode, events).output
    ensures Started?(PartFor(PartsOf(events), f.generation))
    ensures f in Fate(decode, GenerationOf(f.generation, PartFor(PartsOf(events), f.generation)))
  {
    hide Fate, Run, PartsOf, Ended, Emit, GenerationOf, Started?;
    RunIsParts(decode, events);
    var parts := PartsOf(events);
    if f in Ended(decode, parts.ended) {
      EndedMember(decode, parts.ended, f);
    } else {
      var g := GenerationOf(|parts.ended| + 1, parts.current);
      EmittedFate(decode, g);
      FateMember(decode, g, f);
    }
  }

  /** Frames are numbered from the packet that started their generation, whichever unit it was. */
  lemma NumberedFromStarter(decode: Decode, events: seq<Event>, f: AudioFrame)
    requires f in Run(decode, events).output
    ensures var part := PartFor(PartsOf(events), f.generation);
            part != [] && f.index == (part[0].packet.frameIndex + f.unit) % U16
  {
    hide Fate, Run, PartsOf, GenerationOf;
    FrameOfPart(decode, events, f);
    var part := PartFor(PartsOf(events), f.generation);
    FateMember(decode, GenerationOf(f.generation, part), f);
    SlotsOfPart(f.generation, part);
  }

  /** Decoding leaves the units that are there alone. */
  lemma FinalUnit(decode: Decode, g: Generation, i: nat)
    requires WellFormed(g) && IsDecoder(decode) && i < g.k && g.units[i] != []
    ensures FinalUnits(decode, g)[i] == g.units[i]
  {
    hide Received, IsDecoder;
    if TriesFec(g) && Recovered(decode, g).Some? {
      var words, missing := AllPadded(g.units, g.unitSize), Erasures(g.units, g.k + g.m);
      DecodedShape(decode, g.k, g.m, words, missing, g.unitSize);
      assert i !in missing;
      PaddedFull(g.units[i]);
    }
  }

  /** The packet whose unit is handed on; none if the unit was recovered. */
  function PacketOfFrame(events: seq<Event>, f: AudioFrame): Option<Event> {
    FirstOf(PartFor(PartsOf(events), f.generation), f.unit)
  }

  /** A frame has the bytes and the kind of its own packet, cut or filled up to the size of the starter's. */
  lemma BytesOfPacket(decode: Decode, events: seq<Event>, f: AudioFrame)
    requires IsDecoder(decode) && f in Run(decode, events).output && PacketOfFrame(events, f).Some?
    ensures var part, p := PartFor(PartsOf(events), f.generation), PacketOfFrame(events, f).value.packet;
            part != [] && f.data == Fitted(p.data, |part[0].packet.data|) && f.isHaptics == p.isHaptics
  {
    hide Fate, Run, PartsOf, GenerationOf, FinalUnits, IsDecoder, Fitted;
    FrameOfPart(decode, events, f);
    var part := PartFor(PartsOf(events), f.generation);
    var g := GenerationOf(f.generation, part);
    FateMember(decode, g, f);
    SlotsOfPart(f.generation, part);
    assert HoldsFirst(g, part, f.unit);
    FinalUnit(decode, g, f.unit);
  }

  /**
   Exactly when a frame has the number of its own packet: when that number less the packet's
   unit index is the number of the packet that started the generation.
   */
  lemma RightNumberIff(decode: Decode, events: seq<Event>, f: AudioFrame)
    requires f in Run(decode, events).output
    requires forall e :: e in events ==> e.packet.frameIndex < U16
    requires PacketOfFrame(events, f).Some?
    ensures var part, p := PartFor(PartsOf(events), f.generation), PacketOfFrame(events, f).value.packet;
            && part != []
            && (f.index == p.frameIndex <==> part[0].packet.frameIndex == (p.frameIndex - p.unitIndex) % U16)
  {
    hide Run, PartsOf;
    NumberedFromStarter(decode, events, f);
    var part, e := PartFor(PartsOf(events), f.generation), PacketOfFrame(events, f).value;
    PartWithin(events, f.generation, part[0]);
    PartWithin(events, f.generation, e);
    CountsBack(part[0].packet.frameIndex, e.packet.frameIndex, f.unit);
  }

  lemma CountsBack(first: nat, index: nat, unit: nat)
    requires first < U16 && index < U16
    ensures (first + unit) % U16 == index <==> first == (index - unit) % U16
  {
    var u: int := unit;
    AddRemainder(index - u, u, U16);
    AddRemainder(first + u, -u, U16);
  }

  lemma {:induction false} PartWithin(events: seq<Event>, id: nat, e: Event)
    requires e in PartFor(PartsOf(events), id)
    ensures e in events
    decreases |events|
  {
    if events != [] {
      var before, last := events[..|events| - 1], events[|events| - 1];
      assert events == before + [last];
      var parts := PartsOf(before);
      if e != last {
        assert e in PartFor(parts, id) || e in PartFor(parts, |parts.ended| + 1);
        if e in PartFor(parts, id) {
          PartWithin(before, id, e);
        } else {
          PartWithin(before, |parts.ended| + 1, e);
        }
      }
    }
  }

  lemma {:induction false} OfEnded(decode: Decode, parts: seq<seq<Event>>, id: nat)
    requires forall part :: part in parts ==> Started?(part)
    ensures Of(Ended(decode, parts), id) ==
            if 1 <= id <= |parts| then Fate(decode, GenerationOf(id, parts[id - 1])) else []
  {
    hide Fate, Of;
    if parts == [] {
      OfOthers([], id);
    } else {
      var init, g := parts[..|parts| - 1], GenerationOf(|parts|, parts[|parts| - 1]);
      OfEnded(decode, init, id);
      OfConcat(Ended(decode, init), Fate(decode, g), id);
      if id == |parts| {
        FateOwn(decode, g);
        assert [] + Fate(decode, g) == Fate(decode, g);
      } else {
        forall f | f in Fate(decode, g) ensures f.generation != id {
          FateMember(decode, g, f);
        }
        OfOthers(Fate(decode, g), id);
      }
    }
  }

  /** All that a run hands on of an ended part is its fate. */
  lemma OfEndedPart(decode: Decode, events: seq<Event>, id: nat)
    requires 1 <= id <= |PartsOf(events).ended|
    ensures Started?(PartsOf(events).ended[id - 1])
    ensures Of(Run(decode, events).output, id) == Fate(decode, GenerationOf(id, PartsOf(events).ended[id - 1]))
  {
    hide Fate, Of, Run, PartsOf, Ended, Emit, GenerationOf, Started?;
    RunIsParts(decode, events);
    var parts := PartsOf(events);
    OfEnded(decode, parts.ended, id);
    var rest := if parts.current == [] then [] else SoFar(GenerationOf(|parts.ended| + 1, parts.current));
    OfConcat(Ended(decode, parts.ended), rest, id);
    forall f | f in rest ensures f.generation != id {
      var g := GenerationOf(|parts.ended| + 1, parts.current);
      EmitMember(g, g.units, g.k, f);
    }
    OfOthers(rest, id);
  }

  lemma {:induction false} EmitHas(g: Generation, units: seq<Unit>, n: nat, i: nat)
    requires i < n <= |units| && n <= |g.haptics| && units[i] != []
    ensures AudioFrame(g.id, i, (g.first + i) % U16, units[i], g.haptics[i]) in Emit(g, units, n)
  {
    if i < n - 1 {
      EmitHas(g, units, n - 1, i);
    }
  }

  lemma {:induction false} OfWithin(frames: seq<AudioFrame>, id: nat, f: AudioFrame)
    requires f in Of(frames, id)
    ensures f in frames
  {
    if f in Of(frames[..|frames| - 1], id) {
      OfWithin(frames[..|frames| - 1], id, f);
    }
  }

  /**
   No source packet that was kept is lost: once its generation has ended it was handed on,
   cut or filled up to size, whether or not others are missing and FEC was of use.
   */
  lemma KeptIsHandedOn(decode: Decode, events: seq<Event>, id: nat, i: nat)
    requires IsDecoder(decode) && 1 <= id <= |PartsOf(events).ended|
    ensures var part := PartsOf(events).ended[id - 1];
            && Started?(part)
            && (i < part[0].packet.total - part[0].packet.fec && FirstOf(part, i).Some? ==>
                  var first, p := part[0].packet, FirstOf(part, i).value.packet;
                  AudioFrame(id, i, (first.frameIndex + i) % U16, Fitted(p.data, |first.data|), p.isHaptics)
                    in Run(decode, events).output)
  {
    hide Fate, Of, Run, PartsOf, Emit, GenerationOf, FinalUnits, IsDecoder, Fitted, Received;
    OfEndedPart(decode, events, id);
    var part := PartsOf(events).ended[id - 1];
    var g := GenerationOf(id, part);
    SlotsOfPart(id, part);
    if i < g.k && FirstOf(part, i).Some? {
      assert HoldsFirst(g, part, i);
      NotEmpty(g, part, i);
      FinalUnit(decode, g, i);
      FateHas(decode, g, i);
      OfWithin(Run(decode, events).output, id,
               AudioFrame(g.id, i, (g.first + i) % U16, FinalUnits(decode, g)[i], g.haptics[i]));
    }
  }

  lemma FateHas(decode: Decode, g: Generation, i: nat)
    requires WellFormed(g) && i < g.k && FinalUnits(decode, g)[i] != []
    ensures AudioFrame(g.id, i, (g.first + i) % U16, FinalUnits(decode, g)[i], g.haptics[i]) in Fate(decode, g)
  {
    EmitHas(g, FinalUnits(decode, g), g.k, i);
  }

  lemma NotEmpty(g: Generation, part: seq<Event>, i: nat)
    requires Started?(part) && WellFormed(g) && i < |g.units| && HoldsFirst(g, part, i) && FirstOf(part, i).Some?
    ensures g.units[i] != []
  {
  }

  /** And with fewer than k units nothing else is: every frame is a packet's. */
  lemma FewUnitsAreAll(decode: Decode, events: seq<Event>, f: AudioFrame)
    requires f in Run(decode, events).output
    requires var part := PartFor(PartsOf(events), f.generation);
             Started?(part) && |Arrived(part)| < part[0].packet.total - part[0].packet.fec
    ensures PacketOfFrame(events, f).Some?
  {
    hide Fate, Run, PartsOf, GenerationOf, Recovered, Received;
    FrameOfPart(decode, events, f);
    var part := PartFor(PartsOf(events), f.generation);
    var g := GenerationOf(f.generation, part);
    FateMember(decode, g, f);
    SlotsOfPart(f.generation, part);
    CountOfPart(g, part);
    assert HoldsFirst(g, part, f.unit);
  }

  /**
   When the next packet starts a generation; otherwise it goes into its slot of the generation
   in progress, whosever that is, or is dropped because the slot is taken or it is empty.
   */
  lemma StartsIff(decode: Decode, events: seq<Event>, e: Event)
    ensures var parts, p := PartsOf(events), e.packet;
            var before, after := Run(decode, events).state, Run(decode, events + [e]).state;
            && (after.lastId > before.lastId <==>
                  && p.total > 0 && p.fec < p.total && |p.data| > 0
                  && (|| parts.current == []
                      || p.unitIndex == 0
                      || Late(parts.current[0], e)
                      || |Arrived(parts.current)| == parts.current[0].packet.total
                      || p.unitIndex >= parts.current[0].packet.total
                      || p.total != parts.current[0].packet.total
                      || p.fec != parts.current[0].packet.fec))
            && (!Begins(parts, e) ==>
                  && before.current.Some?
                  && var g := before.current.value;
                     p.unitIndex < |g.units| && after == State(g.id, Some(Into(g, p)))
                     && (after == before <==> g.units[p.unitIndex] != [] || |p.data| == 0))
  {
    hide Received, GenerationOf, Arrived, Fitted, Late, Run, PartsOf, Into, OutputOf;
    RunIsParts(decode, events);
    RunIsParts(decode, events + [e]);
    PartsMore(events, e);
    var parts := PartsOf(events);
    if !Begins(parts, e) {
      Continues(|parts.ended| + 1, parts.current, e);
    }
  }

  lemma Continues(id: nat, part: seq<Event>, e: Event)
    requires Started?(part) && !Restarts(part, e)
    ensures Started?(part + [e])
    ensures var g, h := GenerationOf(id, part), GenerationOf(id, part + [e]);
            && e.packet.unitIndex < |g.units| && h == Into(g, e.packet)
            && (h == g <==> g.units[e.packet.unitIndex] != [] || |e.packet.data| == 0)
  {
    hide Received, GenerationOf, Arrived, Fitted, Late, Into;
    IntoMore(id, part, e);
    SlotsOfPart(id, part);
    IntoChanges(GenerationOf(id, part), e.packet);
  }

  lemma PartsMore(events: seq<Event>, e: Event)
    ensures PartsOf(events + [e]) == Extend(PartsOf(events), e)
  {
    assert (events + [e])[..|events|] == events;
  }

  lemma IntoChanges(g: Generation, p: Packet)
    requires WellFormed(g) && p.unitIndex < |g.units|
    ensures Into(g, p) == g <==> g.units[p.unitIndex] != [] || |p.data| == 0
  {
    hide Received, Fitted;
    if Accepts(g, p) {
      assert Stored(g, p).units[p.unitIndex] == Fitted(p.data, g.unitSize);
    }
  }
}
