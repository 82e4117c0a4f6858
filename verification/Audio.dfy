/** Audio reassembly of lib/src/pscloud_audio_reassembler.c. */
module AudioSpec {
  import opened Common
  import opened FecSpec

  const UNIT_SLOTS_MAX := 512
  const GENERATION_TIMEOUT_US := 150 * 1000

  datatype Packet = Packet(frameIndex: nat, unitIndex: nat, total: nat, fec: nat, data: seq<byte>, isHaptics: bool)

  /** What is handed on: its index, bytes and kind; `generation` and `unit` say where it comes from. */
  datatype AudioFrame = AudioFrame(generation: nat, unit: nat, index: nat, data: Unit, isHaptics: bool)

  /** A generation of k source and m FEC units; a missing unit is empty. */
  datatype Generation = Generation(id: nat, first: nat, k: nat, m: nat, unitSize: nat, units: seq<Unit>,
                                   haptics: seq<bool>, emitted: bool, start: nat)

  /** Between generations, the number of the last one remains. */
  datatype State = State(lastId: nat, current: Option<Generation>)

  predicate WellFormed(g: Generation) {
    && |g.units| == |g.haptics| == g.k + g.m && g.k > 0 && g.unitSize > 0
    && (forall i :: 0 <= i < |g.units| ==> g.units[i] == [] || |g.units[i]| == g.unitSize)
    && (forall i :: 0 <= i < |g.units| ==> g.units[i] == [] ==> !g.haptics[i])
    && (g.emitted <==> Received(g.units, g.k) == g.k)
  }

  predicate Valid(s: State) {
    s.current.Some? ==> WellFormed(s.current.value) && s.current.value.id == s.lastId
  }

  /** Too old at time `now`; a generation that started at time zero never is. */
  predicate Stale(g: Generation, now: nat) {
    g.start > 0 && (now - g.start) % U64 > GENERATION_TIMEOUT_US
  }

  /** Whether a packet ends the current generation. */
  predicate Supersedes(g: Generation, p: Packet, now: nat)
    requires WellFormed(g)
  {
    || Stale(g, now)
    || p.unitIndex == 0
    || Received(g.units, g.k + g.m) == g.k + g.m
    || p.unitIndex >= g.k + g.m
    || p.total != g.k + g.m || p.fec != g.m
  }

  /** A packet that can start a generation; for the others there is none afterwards. */
  predicate CanStart(p: Packet) {
    p.total > 0 && p.fec < p.total && |p.data| > 0
  }

  function Stride(unitSize: nat): nat {
    (unitSize + 0xf) / 0x10 * 0x10
  }

  /** It announces more than there is room for; the source gives up halfway through starting its generation. */
  predicate TooLarge(p: Packet)
    requires CanStart(p)
  {
    p.total > UNIT_SLOTS_MAX || Stride(|p.data|) > SIZE_MAX / p.total
  }

  /** More than 512 units, or more bytes in all, in cells of whole 16 bytes, than can be addressed. */
  lemma TooLargeIff(p: Packet)
    requires CanStart(p)
    ensures TooLarge(p) <==> p.total > 512 || p.total * ((|p.data| + 15) / 16 * 16) >= 0x1_0000_0000_0000_0000
  {
    QuotientTest(Stride(|p.data|), p.total, SIZE_MAX);
  }

  function Started(id: nat, p: Packet, now: nat): (g: Generation)
    requires CanStart(p)
    ensures WellFormed(g) && g.id == id && !g.emitted
  {
    var g := Generation(id, p.frameIndex, p.total - p.fec, p.fec, |p.data|, seq(p.total, _ => []),
                        seq(p.total, _ => false), false, now);
    NothingReceived(g.units, g.k);
    g
  }

  /** The units `i` < `n` that are there. */
  function Emit(g: Generation, units: seq<Unit>, n: nat): (frames: seq<AudioFrame>)
    requires n <= |units| && n <= |g.haptics|
  {
    if n == 0 then []
    else Emit(g, units, n - 1) +
         if units[n - 1] == [] then []
         else [AudioFrame(g.id, n - 1, (g.first + (n - 1)) % U16, units[n - 1], g.haptics[n - 1])]
  }

  lemma {:induction false} EmitSame(g: Generation, h: Generation, units: seq<Unit>, n: nat)
    requires h.id == g.id && h.first == g.first && h.haptics == g.haptics && n <= |units| && n <= |g.haptics|
    ensures Emit(h, units, n) == Emit(g, units, n)
  {
    if n > 0 {
      EmitSame(g, h, units, n - 1);
    }
  }

  /** With a source unit missing there is something to recover. */
  lemma SomeErased(units: seq<Unit>, n: nat, k: nat)
    requires k <= n <= |units| && Received(units, k) < k
    ensures |Erasures(units, n)| > 0
  {
    AllReceived(units, k);
    var i :| 0 <= i < k && units[i] == [];
    assert i in Erasures(units, n);
  }

  function Recovered(decode: Decode, g: Generation): Option<seq<Unit>>
    requires WellFormed(g)
  {
    decode(g.k, g.m, AllPadded(g.units, g.unitSize), Erasures(g.units, g.k + g.m))
  }

  predicate TriesFec(g: Generation)
    requires WellFormed(g)
  {
    Received(g.units, g.k) < g.k <= Received(g.units, g.k + g.m)
  }

  /** The source units when a generation ends: FEC is tried if some are missing and enough units are there. */
  function FinalUnits(decode: Decode, g: Generation): (units: seq<Unit>)
    requires WellFormed(g)
    ensures |units| == g.k + g.m
  {
    if TriesFec(g) && Recovered(decode, g).Some? && |Recovered(decode, g).value| == g.k + g.m then
      Recovered(decode, g).value
    else g.units
  }

  /** Everything that is ever handed on of a generation. */
  function Fate(decode: Decode, g: Generation): seq<AudioFrame>
    requires WellFormed(g)
  {
    var units := FinalUnits(decode, g);
    Emit(g, units, g.k)
  }

  /** What is handed on when the generation ends: all of it, unless that has happened. */
  function Ending(decode: Decode, g: Generation): seq<AudioFrame>
    requires WellFormed(g)
  {
    if g.emitted then [] else Fate(decode, g)
  }

  /** A unit of another size is cut off or filled up with zeros. */
  function Fitted(data: seq<byte>, size: nat): (unit: Unit)
    ensures |unit| == size
  {
    if |data| > size then data[..size] else Padded(data, size)
  }

  lemma FittedMeans(data: seq<byte>, size: nat, k: nat)
    requires k < size
    ensures Fitted(data, size)[k] == if k < |data| then data[k] else 0
  {
  }

  predicate Accepts(g: Generation, p: Packet)
    requires WellFormed(g)
  {
    p.unitIndex < g.k + g.m && g.units[p.unitIndex] == [] && |p.data| > 0
  }

  function Stored(g: Generation, p: Packet): (h: Generation)
    requires WellFormed(g) && Accepts(g, p)
    ensures WellFormed(h) && h.id == g.id && h.k == g.k && h.m == g.m
  {
    ReceivedPut(g.units, p.unitIndex, Fitted(p.data, g.unitSize), g.k);
    var units := g.units[p.unitIndex := Fitted(p.data, g.unitSize)];
    g.(units := units, haptics := g.haptics[p.unitIndex := p.isHaptics], emitted := Received(units, g.k) == g.k)
  }

  datatype Outcome = Outcome(state: State, frames: seq<AudioFrame>, ok: bool)

  /** Into a generation; its source units are handed on as soon as all are there. */
  function Store(g: Generation, p: Packet): Outcome
    requires WellFormed(g)
  {
    if !Accepts(g, p) then Outcome(State(g.id, Some(g)), [], false)
    else
      var h := Stored(g, p);
      Outcome(State(h.id, Some(h)), if h.emitted && !g.emitted then Emit(h, h.units, h.k) else [], true)
  }

  predicate EndsGeneration(s: State, p: Packet, now: nat)
    requires Valid(s)
  {
    s.current.None? || Supersedes(s.current.value, p, now)
  }

  function EndingOf(decode: Decode, s: State): seq<AudioFrame>
    requires Valid(s)
  {
    if s.current.None? then [] else Ending(decode, s.current.value)
  }

  /** A packet at time `now`; a generation it starts is dated `started`. */
  function Put(decode: Decode, s: State, p: Packet, now: nat, started: nat): (o: Outcome)
    requires Valid(s)
    ensures Valid(o.state)
  {
    if !EndsGeneration(s, p, now) then Store(s.current.value, p)
    else if !CanStart(p) then Outcome(State(s.lastId, None), EndingOf(decode, s), false)
    else
      var o := Store(Started(s.lastId + 1, p, started), p);
      o.(frames := EndingOf(decode, s) + o.frames)
  }
}

/** Whole runs of packets. */
module AudioRuns {
  import opened Common
  import opened FecSpec
  import opened AudioSpec

  /** A packet, the clock's two answers, and the sending it comes from, which the reassembler does not see. */
  datatype Event = Event(packet: Packet, now: nat, started: nat, sending: nat)

  datatype History = History(state: State, output: seq<AudioFrame>)

  function Run(decode: Decode, events: seq<Event>): (h: History)
    ensures Valid(h.state)
    decreases |events|
  {
    if events == [] then History(State(0, None), [])
    else
      var h, e := Run(decode, events[..|events| - 1]), events[|events| - 1];
      var o := Put(decode, h.state, e.packet, e.now, e.started);
      History(o.state, h.output + o.frames)
  }

  /** Earlier generation, or earlier unit of the same. */
  predicate Before(a: AudioFrame, b: AudioFrame) {
    a.generation < b.generation || (a.generation == b.generation && a.unit < b.unit)
  }

  predicate Ordered(frames: seq<AudioFrame>) {
    forall i, j :: 0 <= i < j < |frames| ==> Before(frames[i], frames[j])
  }

  /** Those of a generation. */
  function Of(frames: seq<AudioFrame>, id: nat): (of: seq<AudioFrame>) {
    if frames == [] then []
    else
      var last := frames[|frames| - 1];
      Of(frames[..|frames| - 1], id) + if last.generation == id then [last] else []
  }

  lemma {:induction false} OfConcat(a: seq<AudioFrame>, b: seq<AudioFrame>, id: nat)
    ensures Of(a + b, id) == Of(a, id) + Of(b, id)
  {
    if b == [] {
      assert a + b == a;
    } else {
      assert (a + b)[..|a + b| - 1] == a + b[..|b| - 1];
      OfConcat(a, b[..|b| - 1], id);
    }
  }

  lemma {:induction false} OfOwn(frames: seq<AudioFrame>, id: nat)
    requires forall f :: f in frames ==> f.generation == id
    ensures Of(frames, id) == frames
  {
    if frames != [] {
      var init, last := frames[..|frames| - 1], frames[|frames| - 1];
      assert frames == init + [last];
      assert last in frames;
      OfOwn(init, id);
    }
  }

  lemma {:induction false} OfOthers(frames: seq<AudioFrame>, id: nat)
    requires forall f :: f in frames ==> f.generation != id
    ensures Of(frames, id) == []
  {
    if frames != [] {
      var init, last := frames[..|frames| - 1], frames[|frames| - 1];
      assert frames == init + [last];
      assert last in frames;
      OfOthers(init, id);
    }
  }

  /** Emitting a generation is in order, and of this generation only. */
  lemma {:induction false} EmitOrdered(g: Generation, units: seq<Unit>, n: nat)
    requires n <= |units| && n <= |g.haptics|
    ensures Ordered(Emit(g, units, n))
    ensures forall f :: f in Emit(g, units, n) ==> f.generation == g.id && f.unit < n
  {
    if n > 0 {
      EmitOrdered(g, units, n - 1);
      var init := Emit(g, units, n - 1);
      assert forall i :: 0 <= i < |init| ==> init[i] in init;
    }
  }

  /** The frames of a step: the end of the current generation, or else all of the one they complete. */
  lemma StepFrames(decode: Decode, s: State, p: Packet, now: nat, started: nat)
    requires Valid(s)
    ensures var o := Put(decode, s, p, now, started);
            && Ordered(o.frames)
            && o.state.lastId >= s.lastId
            && (forall f :: f in o.frames ==> s.lastId <= f.generation <= o.state.lastId)
            && (s.current.Some? && s.current.value.emitted ==> forall f :: f in o.frames ==> f.generation > s.lastId)
            && (s.current.None? ==> forall f :: f in o.frames ==> f.generation > s.lastId)
            && (o.state.current.Some? && !o.state.current.value.emitted ==>
                  forall f :: f in o.frames ==> f.generation < o.state.lastId)
  {
    hide Received, Supersedes, CanStart, Store, EndingOf;
    EndingFrames(decode, s);
    if !EndsGeneration(s, p, now) {
      StoreFrames(s.current.value, p);
    } else if CanStart(p) {
      StoreFrames(Started(s.lastId + 1, p, started), p);
      var a, b := EndingOf(decode, s), Store(Started(s.lastId + 1, p, started), p).frames;
      forall i, j | 0 <= i < j < |a + b| ensures Before((a + b)[i], (a + b)[j]) {
        if i < |a| <= j {
          assert a[i] in a && b[j - |a|] in b;
        }
      }
    }
  }

  /** All of a generation comes out at once, and then never again. */
  lemma StoreFrames(g: Generation, p: Packet)
    requires WellFormed(g)
    ensures var o := Store(g, p);
            && Ordered(o.frames) && o.state.lastId == g.id && o.state.current.Some?
            && (forall f :: f in o.frames ==> f.generation == g.id)
            && (g.emitted || !o.state.current.value.emitted ==> o.frames == [])
  {
    hide Received, Accepts, Stored;
    if Accepts(g, p) {
      EmitOrdered(Stored(g, p), Stored(g, p).units, g.k);
    }
  }

  lemma EndingFrames(decode: Decode, s: State)
    requires Valid(s)
    ensures var frames := EndingOf(decode, s);
            && Ordered(frames) && (forall f :: f in frames ==> f.generation == s.lastId)
            && (s.current.None? || s.current.value.emitted ==> frames == [])
  {
    hide Received, FinalUnits;
    if s.current.Some? {
      var g := s.current.value;
      EmitOrdered(g, FinalUnits(decode, g), g.k);
    }
  }

  /** No unit of any generation is handed on twice, and units and generations are in order. */
  lemma {:induction false} OutputOrdered(decode: Decode, events: seq<Event>)
    ensures var h := Run(decode, events);
            && Ordered(h.output)
            && (forall f :: f in h.output ==> f.generation <= h.state.lastId)
            && (h.state.current.Some? && !h.state.current.value.emitted ==>
                  forall f :: f in h.output ==> f.generation < h.state.lastId)
    decreases |events|
  {
    hide Put;
    if events != [] {
      var before, e := events[..|events| - 1], events[|events| - 1];
      OutputOrdered(decode, before);
      var h := Run(decode, before);
      StepFrames(decode, h.state, e.packet, e.now, e.started);
      KeepsUnemitted(decode, h.state, e.packet, e.now, e.started);
      var frames := Put(decode, h.state, e.packet, e.now, e.started).frames;
      forall i, j | 0 <= i < j < |h.output + frames| ensures Before((h.output + frames)[i], (h.output + frames)[j]) {
        if i < |h.output| <= j {
          assert h.output[i] in h.output && frames[j - |h.output|] in frames;
        }
      }
    }
  }

  /** A generation that is not complete after a step was started by it or not complete before. */
  lemma KeepsUnemitted(decode: Decode, s: State, p: Packet, now: nat, started: nat)
    requires Valid(s)
    ensures var t := Put(decode, s, p, now, started).state;
            t.current.Some? && !t.current.value.emitted ==>
              t.lastId > s.lastId || (s.current.Some? && !s.current.value.emitted)
  {
    hide Received, Supersedes, CanStart;
    if s.current.Some? && Accepts(s.current.value, p) {
      var g := s.current.value;
      ReceivedPut(g.units, p.unitIndex, Fitted(p.data, g.unitSize), g.k);
    }
  }

  /** What the output has of the current generation: everything once it is complete, nothing before. */
  lemma {:induction false} OutputOfCurrent(decode: Decode, events: seq<Event>)
    ensures var h := Run(decode, events);
            h.state.current.Some? ==>
              var g := h.state.current.value;
              Of(h.output, g.id) == if g.emitted then Emit(g, g.units, g.k) else []
    decreases |events|
  {
    hide Put;
    if events != [] {
      var before, e := events[..|events| - 1], events[|events| - 1];
      OutputOfCurrent(decode, before);
      OutputOrdered(decode, before);
      var h := Run(decode, before);
      if Run(decode, events).state.current.Some? {
        var g := Run(decode, events).state.current.value;
        CurrentAfterStep(decode, h, e);
      }
    }
  }

  lemma CurrentAfterStep(decode: Decode, h: History, e: Event)
    requires Valid(h.state) && forall f :: f in h.output ==> f.generation <= h.state.lastId
    requires h.state.current.Some? ==>
               var g := h.state.current.value;
               Of(h.output, g.id) == if g.emitted then Emit(g, g.units, g.k) else []
    ensures var o := Put(decode, h.state, e.packet, e.now, e.started);
            o.state.current.Some? ==>
              var g := o.state.current.value;
              Of(h.output + o.frames, g.id) == if g.emitted then Emit(g, g.units, g.k) else []
  {
    hide Received, Supersedes, FinalUnits, CanStart, Emit, Of, Started, Stored, Accepts, EndingOf, Store;
    var p, s := e.packet, h.state;
    if !EndsGeneration(s, p, e.now) {
      CurrentAfterStore(h.output, s.current.value, p);
    } else if CanStart(p) {
      var g := Started(s.lastId + 1, p, e.started);
      EndingOfOthers(decode, s, g.id);
      OfOthers(h.output, g.id);
      OfConcat(h.output, EndingOf(decode, s), g.id);
      CurrentAfterStore(h.output + EndingOf(decode, s), g, p);
      var ending, own := EndingOf(decode, s), Store(g, p).frames;
      assert h.output + (ending + own) == (h.output + ending) + own;
    }
  }

  lemma CurrentAfterStore(output: seq<AudioFrame>, g: Generation, p: Packet)
    requires WellFormed(g)
    requires Of(output, g.id) == if g.emitted then Emit(g, g.units, g.k) else []
    ensures var o := Store(g, p);
            && o.state.current.Some?
            && var h := o.state.current.value;
               h.id == g.id && WellFormed(h)
               && Of(output + o.frames, h.id) == if h.emitted then Emit(h, h.units, h.k) else []
  {
    hide Received, Emit, Of, Fitted;
    var o := Store(g, p);
    OfConcat(output, o.frames, g.id);
    OfOthers([], g.id);
    if Accepts(g, p) {
      var h := Stored(g, p);
      EmitOrdered(h, h.units, h.k);
      OfOwn(Emit(h, h.units, h.k), h.id);
      if g.emitted {
        StoredAgain(g, p);
      }
    }
  }

  lemma EndingOfOthers(decode: Decode, s: State, id: nat)
    requires Valid(s) && id > s.lastId
    ensures Of(EndingOf(decode, s), id) == []
  {
    if s.current.Some? {
      var g := s.current.value;
      EmitOrdered(g, FinalUnits(decode, g), g.k);
    }
    OfOthers(EndingOf(decode, s), id);
  }

  /** A complete generation keeps its source units: later packets only add FEC units. */
  lemma StoredAgain(g: Generation, p: Packet)
    requires WellFormed(g) && g.emitted && Accepts(g, p)
    ensures Stored(g, p).emitted && Emit(Stored(g, p), Stored(g, p).units, g.k) == Emit(g, g.units, g.k)
  {
    hide Emit, Received;
    AllReceived(g.units, g.k);
    ReceivedPut(g.units, p.unitIndex, Fitted(p.data, g.unitSize), g.k);
    EmitOfSameUnits(g, Stored(g, p), g.k);
  }

  lemma {:induction false} EmitOfSameUnits(g: Generation, h: Generation, n: nat)
    requires WellFormed(g) && WellFormed(h) && n <= g.k == h.k && g.m == h.m
    requires h.id == g.id && h.first == g.first
    requires forall i :: 0 <= i < n ==> h.units[i] == g.units[i] && h.haptics[i] == g.haptics[i]
    ensures Emit(h, h.units, n) == Emit(g, g.units, n)
  {
    if n > 0 {
      EmitOfSameUnits(g, h, n - 1);
    }
  }

  /**
   When a packet ends a generation, all that has been handed on of it is its fate: every source
   unit if all were there or could be recovered, and otherwise exactly those that were there.
   */
  lemma EndedGeneration(decode: Decode, events: seq<Event>, e: Event)
    ensures var h := Run(decode, events);
            h.state.current.Some? && EndsGeneration(h.state, e.packet, e.now) ==>
              Of(Run(decode, events + [e]).output, h.state.lastId) == Fate(decode, h.state.current.value)
  {
    hide Received, Put, Of, Fate, EndsGeneration, EndingOf;
    var h := Run(decode, events);
    assert (events + [e])[..|events + [e]| - 1] == events;
    if h.state.current.Some? && EndsGeneration(h.state, e.packet, e.now) {
      OutputOfCurrent(decode, events);
      EndingStep(decode, h.output, h.state, e);
    }
  }

  lemma EndingStep(decode: Decode, output: seq<AudioFrame>, s: State, e: Event)
    requires Valid(s) && s.current.Some? && EndsGeneration(s, e.packet, e.now)
    requires var g := s.current.value;
             Of(output, g.id) == if g.emitted then Emit(g, g.units, g.k) else []
    ensures Of(output + Put(decode, s, e.packet, e.now, e.started).frames, s.lastId) == Fate(decode, s.current.value)
  {
    hide Received, Supersedes, FinalUnits, CanStart, Emit, Of, Started, Stored, Accepts, EndsGeneration, Fate;
    var g := s.current.value;
    var ending := Ending(decode, g);
    var own := if CanStart(e.packet) then Store(Started(g.id + 1, e.packet, e.started), e.packet).frames else [];
    assert Put(decode, s, e.packet, e.now, e.started).frames == ending + own;
    OfConcat(output, ending + own, g.id);
    OfConcat(ending, own, g.id);
    if CanStart(e.packet) {
      StoreOthers(Started(g.id + 1, e.packet, e.started), e.packet, g.id);
    } else {
      OfOthers([], g.id);
    }
    FateOwn(decode, g);
    if g.emitted {
      OfOthers([], g.id);
      EmittedFate(decode, g);
    }
  }

  lemma StoreOthers(g: Generation, p: Packet, id: nat)
    requires WellFormed(g) && g.id != id
    ensures Of(Store(g, p).frames, id) == []
  {
    hide Received, Emit, Of;
    if Accepts(g, p) {
      EmitOrdered(Stored(g, p), Stored(g, p).units, g.k);
    }
    OfOthers(Store(g, p).frames, id);
  }

  lemma FateOwn(decode: Decode, g: Generation)
    requires WellFormed(g)
    ensures Of(Fate(decode, g), g.id) == Fate(decode, g)
  {
    EmitOrdered(g, FinalUnits(decode, g), g.k);
    OfOwn(Fate(decode, g), g.id);
  }

  lemma EmittedFate(decode: Decode, g: Generation)
    requires WellFormed(g) && g.emitted
    ensures Fate(decode, g) == Emit(g, g.units, g.k)
  {
  }

  /** Nothing is added to an ended generation later. */
  lemma LaterGenerations(decode: Decode, events: seq<Event>, e: Event, id: nat)
    ensures var h := Run(decode, events);
            id < h.state.lastId || (id == h.state.lastId && h.state.current.None?) ==>
              Of(Run(decode, events + [e]).output, id) == Of(h.output, id)
  {
    hide Put;
    var h := Run(decode, events);
    assert (events + [e])[..|events + [e]| - 1] == events;
    StepFrames(decode, h.state, e.packet, e.now, e.started);
    var o := Put(decode, h.state, e.packet, e.now, e.started);
    OfConcat(h.output, o.frames, id);
    if id < h.state.lastId || (id == h.state.lastId && h.state.current.None?) {
      OfOthers(o.frames, id);
    }
  }

  /** With at least k units of an erasure code, the fate is all k source units. */
  lemma EnoughUnitsFate(encode: Encode, decode: Decode, g: Generation, data: seq<Unit>)
    requires WellFormed(g) && IsErasureCode(encode, decode, g.k, g.m, g.unitSize)
    requires |data| == g.k && AllOfSize(data, g.unitSize)
    requires |encode(g.m, data)| == g.m
    requires forall i: nat :: i < g.k + g.m ==> g.units[i] == [] || g.units[i] == (data + encode(g.m, data))[i]
    requires Received(g.units, g.k + g.m) >= g.k
    ensures |Fate(decode, g)| == g.k
    ensures forall i :: 0 <= i < g.k ==>
              Fate(decode, g)[i] == AudioFrame(g.id, i, (g.first + i) % U16, data[i], g.haptics[i])
  {
    hide Received, IsErasureCode, Emit, Padded;
    AllReceived(g.units, g.k);
    if TriesFec(g) {
      CodeShape(encode, decode, g.k, g.m, g.unitSize, data);
      var words, missing := AllPadded(g.units, g.unitSize), Erasures(g.units, g.k + g.m);
      forall i: nat | i < |words| && i !in missing ensures words[i] == (data + encode(g.m, data))[i] {
        PaddedFull(g.units[i]);
      }
      CodeRecovers(encode, decode, g.k, g.m, g.unitSize, data, words, missing);
      assert FinalUnits(decode, g)[..g.k] == data;
    }
    EmitAll(g, FinalUnits(decode, g), data, g.k);
  }

  lemma PaddedFull(unit: Unit)
    ensures Padded(unit, |unit|) == unit
  {
  }

  lemma {:induction false} EmitAll(g: Generation, units: seq<Unit>, data: seq<Unit>, n: nat)
    requires n <= |units| && n <= |g.haptics| && n <= |data|
    requires forall i :: 0 <= i < n ==> units[i] == data[i] && units[i] != []
    ensures |Emit(g, units, n)| == n
    ensures forall i :: 0 <= i < n ==>
              Emit(g, units, n)[i] == AudioFrame(g.id, i, (g.first + i) % U16, data[i], g.haptics[i])
  {
    if n > 0 {
      EmitAll(g, units, data, n - 1);
    }
  }
}

module Audio {
  import opened Common
  import opened FecSpec
  import opened AudioSpec
  import Fec

  class Reassembler {
    const decode: Decode
    var generationId: nat
    var firstFrameIndex: nat
    var unitsSourceExpected: nat
    var unitsFecExpected: nat
    var unitsTotalExpected: nat
    var unitSize: nat
    var frameBuf: array<byte>
    var frameBufSize: nat
    var bufStridePerUnit: nat
    var unitReceived: array<bool>
    var unitIsHaptics: array<bool>
    var unitsSourceReceived: nat
    var unitsFecReceived: nat
    var flushed: bool
    var sourceUnitsEmitted: bool
    var generationStartTimeUs: nat

    /** The units of the current generation. */
    ghost var units: seq<Unit>

    ghost function Current(): Generation
      reads this, unitIsHaptics
    {
      Generation(generationId, firstFrameIndex, unitsSourceExpected, unitsFecExpected, unitSize, units,
                 unitIsHaptics[..], sourceUnitsEmitted, generationStartTimeUs)
    }

    ghost function Model(): State
      reads this, unitIsHaptics
    {
      State(generationId, if flushed then None else Some(Current()))
    }

    ghost predicate Owns()
      reads this, frameBuf
    {
      IsDecoder(decode) && unitReceived != unitIsHaptics && frameBuf.Length == frameBufSize
    }

    /** The counters are the numbers of marked slots, and the buffer holds the units that are there. */
    ghost predicate Filled()
      reads this, frameBuf, unitReceived, unitIsHaptics
    {
      && WellFormed(Current()) && unitsTotalExpected == unitsSourceExpected + unitsFecExpected
      && unitReceived.Length == unitIsHaptics.Length == |units|
      && (forall i :: 0 <= i < |units| ==> (unitReceived[i] <==> units[i] != []))
      && unitsSourceReceived == Received(units, unitsSourceExpected)
      && unitsSourceReceived + unitsFecReceived == Received(units, |units|)
      && unitSize <= bufStridePerUnit && Holds(frameBuf[..], bufStridePerUnit, units)
    }

    ghost predicate Valid(): (valid: bool)
      reads this, frameBuf, unitReceived, unitIsHaptics
      ensures valid ==> Owns() && AudioSpec.Valid(Model())
    {
      Owns() && (!flushed ==> Filled())
    }

    /** The numbers of a generation that a packet has started. */
    ghost predicate HalfStarted(packet: Packet, id: nat, started: nat)
      reads this
    {
      && !flushed && !sourceUnitsEmitted && generationId == id && generationStartTimeUs == started
      && firstFrameIndex == packet.frameIndex && unitSize == |packet.data| && bufStridePerUnit == Stride(unitSize)
      && packet.fec <= packet.total == unitsTotalExpected
      && unitsSourceExpected == packet.total - packet.fec && unitsFecExpected == packet.fec
      && unitsSourceReceived == unitsFecReceived == 0
    }

    constructor (decode: Decode)
      requires IsDecoder(decode)
      ensures this.decode == decode && Valid() && Model() == State(0, None)
      ensures fresh(frameBuf) && fresh(unitReceived) && fresh(unitIsHaptics)
    {
      this.decode := decode;
      frameBuf, unitReceived, unitIsHaptics := new byte[0], new bool[0], new bool[0];
      generationId, firstFrameIndex, unitsSourceExpected, unitsFecExpected, unitsTotalExpected := 0, 0, 0, 0, 0;
      unitSize, frameBufSize, bufStridePerUnit, unitsSourceReceived, unitsFecReceived := 0, 0, 0, 0, 0;
      flushed, sourceUnitsEmitted, generationStartTimeUs := true, false, 0;
      units := [];
    }

    /**
     chiaki_pscloud_audio_reassembler_put_packet. `now` and `started` are the clock's two
     answers; the frames handed to the callback are returned. A packet that announces too
     much ends the current generation, and leaves the next one half started: its numbers are
     set, but its marks and its buffer are not what they should be.
     */
    method PutPacket(packet: Packet, now: nat, started: nat) returns (ok: bool, frames: seq<AudioFrame>)
      requires Valid()
      modifies this, frameBuf, unitReceived, unitIsHaptics
      ensures var breaks := EndsGeneration(old(Model()), packet, now) && CanStart(packet) && TooLarge(packet);
              if breaks then
                !ok && frames == EndingOf(decode, old(Model())) && HalfStarted(packet, old(generationId) + 1, started)
              else Valid() && Outcome(Model(), frames, ok) == Put(decode, old(Model()), packet, now, started)
    {
      hide Received, Holds, IsDecoder, Emit, Filled, WellFormed, Started, Ending, Accepts, Supersedes, IsOver;
      frames := [];
      var isNew := flushed || IsOver(packet, now);
      if !flushed {
        WhenOver(packet, now);
      }
      if isNew {
        var begun;
        begun, frames := NextGeneration(packet, started);
        if !begun {
          return false, frames;
        }
      }
      var emitted;
      ok, emitted := StoreUnit(packet);
      frames := frames + emitted;
    }

    lemma WhenOver(packet: Packet, now: nat)
      requires Valid() && !flushed
      ensures IsOver(packet, now) <==> Supersedes(Current(), packet, now)
    {
    }

    /** Lines 278-327: the end of the current generation, if there is one, and the next. */
    method NextGeneration(packet: Packet, started: nat) returns (begun: bool, frames: seq<AudioFrame>)
      requires Valid()
      modifies this, frameBuf, unitReceived, unitIsHaptics
      ensures frames == EndingOf(decode, old(Model()))
      ensures begun <==> CanStart(packet) && !TooLarge(packet)
      ensures CanStart(packet) && !begun ==> HalfStarted(packet, old(generationId) + 1, started)
      ensures begun || !CanStart(packet) ==>
                && Valid()
                && Model() == State(old(generationId) + (if begun then 1 else 0),
                                    if begun then Some(Started(old(generationId) + 1, packet, started)) else None)
      ensures fresh(frameBuf) || frameBuf == old(frameBuf)
      ensures
        || (unitReceived == old(unitReceived) && unitIsHaptics == old(unitIsHaptics))
        || (fresh(unitReceived) && fresh(unitIsHaptics))
    {
      hide Received, Holds, IsDecoder, Emit, WellFormed, Started, Ending;
      frames := [];
      if !flushed {
        frames := Finish();
      }
      flushed, generationStartTimeUs := true, 0;
      begun := AllocGeneration(packet, started);
    }

    /** Lines 231-275, for a generation in progress. */
    predicate IsOver(packet: Packet, now: nat)
      reads this
    {
      || (generationStartTimeUs > 0 && (now - generationStartTimeUs) % U64 > GENERATION_TIMEOUT_US)
      || packet.unitIndex == 0
      || unitsSourceReceived + unitsFecReceived >= unitsTotalExpected
      || packet.unitIndex >= unitsTotalExpected
      || packet.total != unitsTotalExpected || packet.fec != unitsFecExpected
    }

    /** Lines 280-318: the end of a generation. */
    method Finish() returns (frames: seq<AudioFrame>)
      requires Valid() && !flushed
      modifies this, frameBuf, unitReceived, unitIsHaptics
      ensures Owns() && frameBuf == old(frameBuf)
      ensures unitReceived == old(unitReceived) && unitIsHaptics == old(unitIsHaptics)
      ensures generationId == old(generationId)
      ensures frames == Ending(decode, old(Current()))
    {
      hide Received, Holds, IsDecoder, Emit;
      ghost var g := Current();
      if unitsSourceReceived < unitsSourceExpected {
        if unitsSourceReceived + unitsFecReceived >= unitsSourceExpected {
          AttemptFec();
        }
      }
      frames := [];
      if !sourceUnitsEmitted {
        frames := EmitUnits();
        EmitSame(g, Current(), units, unitsSourceExpected);
      }
    }

    /** The source units can be read off the buffer. */
    ghost predicate Readable()
      reads this, frameBuf, unitReceived, unitIsHaptics
    {
      && unitsSourceExpected <= |units|
      && unitsSourceExpected <= unitReceived.Length && unitsSourceExpected <= unitIsHaptics.Length
      && (forall i :: 0 <= i < unitsSourceExpected ==>
            (unitReceived[i] <==> units[i] != []) && (units[i] == [] || |units[i]| == unitSize))
      && unitSize <= bufStridePerUnit && Holds(frameBuf[..], bufStridePerUnit, units)
    }

    /** Lines 308-317 and 407-413. */
    method EmitUnits() returns (frames: seq<AudioFrame>)
      requires Readable()
      ensures frames == Emit(Current(), units, unitsSourceExpected)
    {
      hide Holds, Offset, CellHolds;
      frames := [];
      for i := 0 to unitsSourceExpected
        invariant frames == Emit(Current(), units, i)
      {
        if unitReceived[i] {
          HeldCell(frameBuf[..], bufStridePerUnit, units, i);
          OffsetIs(bufStridePerUnit, i);
          CellPrefix(frameBuf[..], bufStridePerUnit, i, units[i], unitSize);
          var at := i * bufStridePerUnit;
          assert frameBuf[at..at + unitSize] == units[i];
          var index := (firstFrameIndex + i) % U16;
          frames := frames + [AudioFrame(generationId, i, index, frameBuf[at..at + unitSize], unitIsHaptics[i])];
        }
      }
    }

    /** The erasure list: its length is known from the counters, and the assertion at the end holds. */
    method CollectErasures() returns (erasures: array<nat>)
      requires Valid() && !flushed
      ensures fresh(erasures) && erasures[..] == Erasures(units, |units|)
    {
      hide Holds, Received, Erasures, IsDecoder;
      var n := unitsSourceExpected + unitsFecExpected;
      var erasuresCount := n - (unitsSourceReceived + unitsFecReceived);
      erasures := new nat[erasuresCount];
      var erasureIndex := 0;
      for i := 0 to n
        invariant erasureIndex == |Erasures(units, i)| && erasureIndex <= erasuresCount
        invariant erasures[..erasureIndex] == Erasures(units, i)
      {
        ErasuresNext(units, i);
        ErasuresGrow(units, i + 1, n);
        if !unitReceived[i] {
          erasures[erasureIndex] := i;
          erasureIndex := erasureIndex + 1;
        }
      }
      assert erasureIndex == erasuresCount;
    }

    /** chiaki_pscloud_audio_reassembler_fec. */
    method AttemptFec()
      requires Valid() && !flushed && TriesFec(Current())
      modifies this`units, this`unitsSourceReceived, frameBuf, unitReceived, unitIsHaptics
      ensures Owns() && Readable() && unitIsHaptics[..] == old(unitIsHaptics[..])
      ensures units == FinalUnits(decode, old(Current()))
    {
      hide Holds, Received, Erasures, IsDecoder, Emit;
      ghost var g := Current();
      var erasures := CollectErasures();
      SomeErased(units, |units|, unitsSourceExpected);
      assert erasures.Length != 0;
      HeldWords(frameBuf[..], bufStridePerUnit, units, unitSize);
      var decoded := Fec.DecodeCells(decode, frameBuf, unitSize, bufStridePerUnit, unitsSourceExpected,
                                     unitsFecExpected, erasures[..]);
      DecodedShape(decode, g.k, g.m, AllPadded(g.units, g.unitSize), Erasures(g.units, g.k + g.m), g.unitSize);
      if decoded {
        AllWordsHeld(old(frameBuf[..]), bufStridePerUnit, units, Recovered(decode, g).value, unitSize);
        MarkRecovered(erasures, Recovered(decode, g).value);
      }
    }

    /** Lines 198-209. */
    method MarkRecovered(erasures: array<nat>, ghost words: seq<Unit>)
      requires Owns() && WellFormed(Current()) && unitReceived.Length == unitIsHaptics.Length == |units| == |words|
      requires (forall i :: 0 <= i < |units| ==> (unitReceived[i] <==> units[i] != [])) && AllOfSize(words, unitSize)
      requires erasures[..] == Erasures(units, |units|)
      requires unitSize <= bufStridePerUnit && Holds(frameBuf[..], bufStridePerUnit, words)
      modifies this`units, this`unitsSourceReceived, unitReceived, unitIsHaptics
      ensures Owns() && Readable() && unitIsHaptics[..] == old(unitIsHaptics[..])
      ensures units == words
    {
      hide Holds, Received, Erasures, IsDecoder, Emit;
      for i := 0 to erasures.Length
        invariant Owns() && units == old(units) && unitIsHaptics[..] == old(unitIsHaptics[..])
        invariant forall j :: 0 <= j < unitsSourceExpected ==>
                (unitReceived[j] <==> units[j] != [] || j in erasures[..i])
      {
        var idx := erasures[i];
        assert idx in erasures[..];
        assert erasures[..i + 1] == erasures[..i] + [idx];
        if idx < unitsSourceExpected {
          unitReceived[idx] := true;
          unitIsHaptics[idx] := false;
          unitsSourceReceived := unitsSourceReceived + 1;
        }
      }
      assert erasures[..erasures.Length] == erasures[..];
      units := words;
    }

    /** Starts a generation from whichever of its packets came first. */
    method AllocGeneration(packet: Packet, started: nat) returns (ok: bool)
      requires Owns() && flushed
      modifies this, frameBuf, unitReceived, unitIsHaptics
      ensures ok <==> CanStart(packet) && !TooLarge(packet)
      ensures CanStart(packet) ==> HalfStarted(packet, old(generationId) + 1, started)
      ensures Owns() && (fresh(frameBuf) || frameBuf == old(frameBuf))
      ensures
        || (unitReceived == old(unitReceived) && unitIsHaptics == old(unitIsHaptics))
        || (fresh(unitReceived) && fresh(unitIsHaptics))
      ensures ok ==> Valid() && !flushed && Current() == Started(old(generationId) + 1, packet, started)
      ensures !CanStart(packet) ==> flushed && generationId == old(generationId)
    {
      hide Holds, Received, IsDecoder, Emit, WellFormed;
      var total, fec := packet.total, packet.fec;
      if total == 0 || fec > total || total - fec == 0 || |packet.data| == 0 {
        return false;
      }
      Begin(packet, started);
      if total > UNIT_SLOTS_MAX {
        return false;
      }
      ClearMarks(total);
      if bufStridePerUnit > SIZE_MAX / total {
        return false;
      }
      Prepare(total);
      assert Current() == Started(old(generationId) + 1, packet, started);
      assert forall i :: 0 <= i < total ==> unitReceived[i] == unitReceived[..][i] == false;
      ok := true;
    }

    /** Lines 73-86. */
    method Begin(packet: Packet, started: nat)
      requires CanStart(packet)
      modifies this
      ensures unchanged(`frameBuf) && unchanged(`frameBufSize) && unchanged(`unitReceived) && unchanged(`unitIsHaptics)
      ensures HalfStarted(packet, old(generationId) + 1, started) && bufStridePerUnit >= unitSize
    {
      flushed, sourceUnitsEmitted := false, false;
      generationId := generationId + 1;
      firstFrameIndex := packet.frameIndex;
      unitsSourceExpected, unitsFecExpected, unitsTotalExpected := packet.total - packet.fec, packet.fec, packet.total;
      unitSize := |packet.data|;
      unitsSourceReceived, unitsFecReceived := 0, 0;
      generationStartTimeUs := started;
      bufStridePerUnit := (unitSize + 0xf) / 0x10 * 0x10;
    }

    /** Lines 118-134: the buffer is cleared. */
    method Prepare(total: nat)
      requires Owns() && unitSize <= bufStridePerUnit && unitsSourceExpected <= total
      modifies this`units, this`frameBuf, this`frameBufSize, frameBuf
      ensures Owns() && (fresh(frameBuf) || frameBuf == old(frameBuf))
      ensures units == seq(total, _ => []) && Holds(frameBuf[..], bufStridePerUnit, units)
      ensures Received(units, unitsSourceExpected) == Received(units, |units|) == 0
    {
      hide Holds, Received, IsDecoder;
      ClearBuffer(total * bufStridePerUnit);
      units := seq(total, _ => []);
      EmptyCells(frameBuf[..], bufStridePerUnit, units);
      NothingReceived(units, unitsSourceExpected);
      NothingReceived(units, |units|);
    }

    method ClearMarks(total: nat)
      requires unitReceived != unitIsHaptics
      modifies this`unitReceived, this`unitIsHaptics, unitReceived, unitIsHaptics
      ensures unitReceived.Length == unitIsHaptics.Length == total && unitReceived != unitIsHaptics
      ensures unitReceived[..] == unitIsHaptics[..] == seq(total, _ => false)
      ensures
        || (unitReceived == old(unitReceived) && unitIsHaptics == old(unitIsHaptics))
        || (fresh(unitReceived) && fresh(unitIsHaptics))
    {
      if total != unitReceived.Length || total != unitIsHaptics.Length {
        unitReceived, unitIsHaptics := new bool[total], new bool[total];
      }
      forall i | 0 <= i < total {
        unitReceived[i] := false;
      }
      forall i | 0 <= i < total {
        unitIsHaptics[i] := false;
      }
    }

    method ClearBuffer(required: nat)
      requires frameBuf.Length == frameBufSize
      modifies this`frameBuf, this`frameBufSize, frameBuf
      ensures frameBuf.Length == frameBufSize >= required && (fresh(frameBuf) || frameBuf == old(frameBuf))
      ensures forall i :: 0 <= i < required ==> frameBuf[i] == 0
    {
      if frameBufSize < required {
        frameBuf := new byte[required];
        frameBufSize := required;
      }
      forall i | 0 <= i < required {
        frameBuf[i] := 0;
      }
    }

    /** Lines 342-417: stores a unit and hands the source units on once all are there. */
    method StoreUnit(packet: Packet) returns (ok: bool, frames: seq<AudioFrame>)
      requires Valid() && !flushed
      modifies this, frameBuf, unitReceived, unitIsHaptics
      ensures Valid() && frameBuf == old(frameBuf)
      ensures unitReceived == old(unitReceived) && unitIsHaptics == old(unitIsHaptics)
      ensures Outcome(Model(), frames, ok) == Store(old(Current()), packet)
    {
      hide Holds, Received, IsDecoder, Emit, Fitted;
      if packet.unitIndex >= unitsTotalExpected || unitReceived[packet.unitIndex] || |packet.data| == 0 {
        return false, [];
      }
      MarkUnit(packet);
      frames, ok := [], true;
      if unitsSourceReceived == unitsSourceExpected && !sourceUnitsEmitted {
        frames := EmitUnits();
        EmitSame(Current(), Current().(emitted := true), units, unitsSourceExpected);
        sourceUnitsEmitted := true;
      }
    }

    /** Lines 372-401. */
    method MarkUnit(packet: Packet)
      requires Valid() && !flushed && Accepts(Current(), packet)
      modifies this`units, this`unitsSourceReceived, this`unitsFecReceived, frameBuf, unitReceived, unitIsHaptics
      ensures Owns() && unitReceived.Length == unitIsHaptics.Length == |units|
      ensures Stored(old(Current()), packet)
           == Current().(emitted := Received(units, unitsSourceExpected) == unitsSourceExpected)
      ensures old(sourceUnitsEmitted) ==> Received(units, unitsSourceExpected) == unitsSourceExpected
      ensures forall i :: 0 <= i < |units| ==> (unitReceived[i] <==> units[i] != [])
      ensures unitsSourceReceived == Received(units, unitsSourceExpected)
      ensures unitsSourceReceived + unitsFecReceived == Received(units, |units|)
      ensures Holds(frameBuf[..], bufStridePerUnit, units)
    {
      hide Holds, Received, IsDecoder, Fitted;
      var i := packet.unitIndex;
      var unit := FitUnit(packet.data);
      Overwritten(frameBuf[..], bufStridePerUnit, units, i, unit);
      Fec.WriteCell(frameBuf, bufStridePerUnit, i, unit);
      unitReceived[i] := true;
      unitIsHaptics[i] := packet.isHaptics;
      ReceivedPut(units, i, unit, unitsSourceExpected);
      ReceivedPut(units, i, unit, |units|);
      units := units[i := unit];
      if i < unitsSourceExpected {
        unitsSourceReceived := unitsSourceReceived + 1;
      } else {
        unitsFecReceived := unitsFecReceived + 1;
      }
    }

    /** Lines 373-393: truncated, or filled up with zeros. */
    method FitUnit(data: seq<byte>) returns (unit: Unit)
      ensures unit == Fitted(data, unitSize)
    {
      var copySize := if |data| < unitSize then |data| else unitSize;
      unit := data[..copySize] + seq(unitSize - copySize, _ => 0);
    }
  }
}
