/**
 What arrives of sendings of audio units, several after or among each other: which number
 their frames get, which generations they land in, and what of them is handed on.
 */
module AudioSendings {
  import opened Common
  import opened FecSpec
  import opened AudioSpec
  import opened AudioRuns
  import opened AudioParts

  /** What a sender has: the source units, all of one size and kind, and the number of FEC units. */
  datatype Sending = Sending(data: seq<Unit>, fec: nat, size: nat, first: nat, haptics: bool) {
    predicate Valid() {
      && |data| > 0 && size > 0 && AllOfSize(data, size)
      && Total() <= UNIT_SLOTS_MAX && Stride(size) <= SIZE_MAX / Total()
    }

    function Total(): nat {
      |data| + fec
    }

    ghost predicate Coded(encode: Encode, decode: Decode) {
      IsErasureCode(encode, decode, |data|, fec, size)
    }

    /** The source units, then the FEC units. */
    ghost function Units(encode: Encode, decode: Decode): (units: seq<Unit>)
      requires Valid() && Coded(encode, decode)
      ensures |units| == Total() && AllOfSize(units, size) && units[..|data|] == data
    {
      CodeShape(encode, decode, |data|, fec, size, data);
      data + encode(fec, data)
    }

    /** Each packet has the next frame index. */
    ghost function PacketOf(encode: Encode, decode: Decode, i: nat): Packet
      requires Valid() && Coded(encode, decode) && i < Total()
    {
      Packet(Number(i), i, Total(), fec, Units(encode, decode)[i], haptics)
    }

    function Number(i: nat): nat {
      (first + i) % U16
    }
  }

  /** The packet is one of the sending it is said to come from. */
  ghost predicate Comes(encode: Encode, decode: Decode, sendings: seq<Sending>, e: Event) {
    && e.sending < |sendings|
    && var s := sendings[e.sending];
       && s.Valid() && s.Coded(encode, decode)
       && e.packet.unitIndex < s.Total() && e.packet == s.PacketOf(encode, decode, e.packet.unitIndex)
  }

  /** Packets of sendings, in any order, repeated or not. */
  ghost predicate AllCome(encode: Encode, decode: Decode, sendings: seq<Sending>, events: seq<Event>) {
    forall e :: e in events ==> Comes(encode, decode, sendings, e)
  }

  /** No packet of a sending has the number that another one begins with. */
  predicate NumberedApart(sendings: seq<Sending>) {
    forall s, t, i: nat :: 0 <= s < |sendings| && 0 <= t < |sendings| && s != t && i < sendings[t].Total() ==>
      sendings[t].Number(i) != sendings[s].Number(0)
  }

  /**
   With several sendings numbered apart: a frame has the number of its own packet if and
   only if unit 0 of that packet's sending started the generation.
   */
  lemma RightNumberOfSendings(encode: Encode, decode: Decode, sendings: seq<Sending>, events: seq<Event>, f: AudioFrame)
    requires AllCome(encode, decode, sendings, events) && NumberedApart(sendings)
    requires f in Run(decode, events).output && PacketOfFrame(events, f).Some?
    ensures var part, e := PartFor(PartsOf(events), f.generation), PacketOfFrame(events, f).value;
            && part != []
            && (f.index == e.packet.frameIndex <==>
                  part[0].sending == e.sending && part[0].packet.unitIndex == 0)
  {
    hide Run, PartsOf, IsErasureCode;
    forall e | e in events ensures e.packet.frameIndex < U16 {
      assert Comes(encode, decode, sendings, e);
    }
    RightNumberIff(decode, events, f);
    var part, e := PartFor(PartsOf(events), f.generation), PacketOfFrame(events, f).value;
    PartWithin(events, f.generation, part[0]);
    PartWithin(events, f.generation, e);
    ApartIff(encode, decode, sendings, part[0], e);
  }

  lemma ApartIff(encode: Encode, decode: Decode, sendings: seq<Sending>, starter: Event, e: Event)
    requires Comes(encode, decode, sendings, starter) && Comes(encode, decode, sendings, e) && NumberedApart(sendings)
    ensures starter.packet.frameIndex == (e.packet.frameIndex - e.packet.unitIndex) % U16 <==>
            starter.sending == e.sending && starter.packet.unitIndex == 0
  {
    hide IsErasureCode;
    var s, t, i := sendings[e.sending], sendings[starter.sending], starter.packet.unitIndex;
    var u: int := e.packet.unitIndex;
    AddRemainder(s.first + u, -u, U16);
    assert (e.packet.frameIndex - e.packet.unitIndex) % U16 == s.first % U16;
    assert starter.packet.frameIndex == t.Number(i);
    if starter.sending == e.sending && i > 0 {
      ModInjective(s.first, s.first + i, U16);
    }
  }

  /** A packet of a sending can start a generation, and is stored in it. */
  lemma StarterKept(encode: Encode, decode: Decode, sendings: seq<Sending>, part: seq<Event>)
    requires part != [] && Comes(encode, decode, sendings, part[0])
    ensures Started?(part) && part[0].packet.unitIndex in Arrived(part)
    ensures FirstOf(part, part[0].packet.unitIndex) == Some(part[0])
  {
    hide IsErasureCode;
    FirstIsFirst(part);
    assert Fits(part[0].packet, part[0].packet);
  }

  lemma {:induction false} FirstIsFirst(part: seq<Event>)
    requires part != [] && |part[0].packet.data| > 0
    ensures FirstOf(part, part[0].packet.unitIndex) == Some(part[0])
    decreases |part|
  {
    if |part| > 1 {
      FirstIsFirst(part[..|part| - 1]);
    } else {
      assert part[..0] == [];
    }
  }

  /** All units that a generation keeps come from one sending. */
  predicate OfOne(part: seq<Event>)
    requires part != []
  {
    forall i, j :: i in Arrived(part) && j in Arrived(part) ==>
      SendingOf(part, i) == SendingOf(part, j)
  }

  /** The sending of the unit that is kept in slot `i`. */
  function SendingOf(part: seq<Event>, i: nat): Option<nat> {
    if FirstOf(part, i).Some? then Some(FirstOf(part, i).value.sending) else None
  }

  predicate EachOfOne(parts: Parts) {
    (forall part :: part in parts.ended && part != [] ==> OfOne(part)) && (parts.current != [] ==> OfOne(parts.current))
  }

  /** The packet goes into a free slot of a generation that another sending has started. */
  predicate Intrudes(parts: Parts, e: Event) {
    && !Begins(parts, e) && e.packet.unitIndex !in Arrived(parts.current)
    && e.sending != parts.current[0].sending
  }

  predicate SomeIntrudes(events: seq<Event>) {
    exists n :: 0 <= n < |events| && Intrudes(PartsOf(events[..n]), events[n])
  }

  /** What has a generation to itself comes from one sending. */
  lemma OwnIsOfOne(part: seq<Event>)
    requires part != [] && forall d, e :: d in part && e in part ==> d.sending == e.sending
    ensures OfOne(part)
  {
    hide Arrived;
    forall i | i in Arrived(part) ensures SendingOf(part, i) == Some(part[0].sending) {
      ArrivedIff(part, i);
    }
  }

  lemma OfOneStarter(encode: Encode, decode: Decode, sendings: seq<Sending>, part: seq<Event>)
    requires part != [] && Comes(encode, decode, sendings, part[0])
    ensures OfOne(part) <==> forall i :: i in Arrived(part) ==> SendingOf(part, i) == Some(part[0].sending)
  {
    hide Comes, Arrived;
    StarterKept(encode, decode, sendings, part);
  }

  lemma OfOneMore(encode: Encode, decode: Decode, sendings: seq<Sending>, part: seq<Event>, e: Event)
    requires part != [] && Comes(encode, decode, sendings, part[0]) && Comes(encode, decode, sendings, e)
    requires e.packet.unitIndex < part[0].packet.total
    ensures OfOne(part + [e]) <==>
            OfOne(part) && (e.packet.unitIndex in Arrived(part) || e.sending == part[0].sending)
  {
    hide IsErasureCode, Arrived, OfOne, Sending.Units;
    var more, u := part + [e], e.packet.unitIndex;
    assert more[0] == part[0];
    OfOneStarter(encode, decode, sendings, part);
    OfOneStarter(encode, decode, sendings, more);
    forall i: nat
      ensures i in Arrived(more) <==> i in Arrived(part) || i == u
      ensures i in Arrived(part) ==> SendingOf(more, i) == SendingOf(part, i)
      ensures u !in Arrived(part) ==> SendingOf(more, u) == Some(e.sending)
    {
      ArrivedIff(part, i);
      ArrivedIff(part, u);
      ArrivedIff(more, i);
      FirstOfMore(part, e, i);
      FirstOfMore(part, e, u);
    }
  }

  lemma OfOneAlone(encode: Encode, decode: Decode, sendings: seq<Sending>, e: Event)
    requires Comes(encode, decode, sendings, e)
    ensures CanStart(e.packet) && OfOne([e])
  {
    hide IsErasureCode, Arrived;
    OfOneStarter(encode, decode, sendings, [e]);
    forall i | i in Arrived([e]) ensures SendingOf([e], i) == Some(e.sending) {
      ArrivedIff([e], i);
    }
  }

  lemma EachOfOneStep(encode: Encode, decode: Decode, sendings: seq<Sending>, parts: Parts, e: Event)
    requires Sound(parts) && Comes(encode, decode, sendings, e)
    requires parts.current != [] ==> Comes(encode, decode, sendings, parts.current[0])
    ensures EachOfOne(Extend(parts, e)) <==> EachOfOne(parts) && !Intrudes(parts, e)
  {
    hide Comes, OfOne, Arrived, CanStart;
    OfOneAlone(encode, decode, sendings, e);
    var after := Extend(parts, e);
    if Begins(parts, e) {
      if parts.current != [] {
        var last := parts.current;
        assert forall part :: part in after.ended <==> part in parts.ended || part == last;
        assert EachOfOne(after) <==> EachOfOne(parts);
      }
    } else {
      OfOneMore(encode, decode, sendings, parts.current, e);
    }
  }

  /**
   Every generation of a run, ended or in progress, holds units of one sending only if and
   only if no packet arrives that neither restarts nor finds its slot taken while another
   sending's generation is in progress.
   */
  lemma {:induction false} EachOfOneIff(encode: Encode, decode: Decode, sendings: seq<Sending>, events: seq<Event>)
    requires AllCome(encode, decode, sendings, events)
    ensures EachOfOne(PartsOf(events)) <==> !SomeIntrudes(events)
    decreases |events|
  {
    hide EachOfOne, Intrudes, Comes, Extend;
    if events == [] {
      NoneIntrudes();
    } else {
      var before, e := events[..|events| - 1], events[|events| - 1];
      assert forall d :: d in before ==> d in events;
      assert e in events;
      EachOfOneIff(encode, decode, sendings, before);
      RunIsParts(decode, before);
      var parts := PartsOf(before);
      if parts.current != [] {
        PartWithin(before, |parts.ended| + 1, parts.current[0]);
      }
      EachOfOneStep(encode, decode, sendings, parts, e);
      IntrudesMore(before, e);
      assert before + [e] == events;
    }
  }

  lemma NoneIntrudes()
    ensures EachOfOne(Parts([], [])) && !SomeIntrudes([])
  {
  }

  lemma IntrudesMore(before: seq<Event>, e: Event)
    ensures SomeIntrudes(before + [e]) <==> SomeIntrudes(before) || Intrudes(PartsOf(before), e)
  {
    hide Intrudes, PartsOf;
    var events := before + [e];
    assert events[..|before|] == before && events[|before|] == e;
    assert forall n :: 0 <= n < |before| ==> events[..n] == before[..n] && events[n] == before[n];
    if SomeIntrudes(before) {
      var n :| 0 <= n < |before| && Intrudes(PartsOf(before[..n]), before[n]);
      assert Intrudes(PartsOf(events[..n]), events[n]);
    }
    if SomeIntrudes(events) {
      var n :| 0 <= n < |events| && Intrudes(PartsOf(events[..n]), events[n]);
      assert n < |before| ==> Intrudes(PartsOf(before[..n]), before[n]);
    }
  }

  /** No packet of `sent` but the first begins a part. */
  predicate Together(sent: seq<Event>) {
    forall i :: 1 <= i < |sent| ==> !Restarts(sent[..i], sent[i])
  }

  /**
   What arrives of a sending, one packet after the other, has a generation of its own to
   itself if and only if its first packet begins one and no later one does.
   */
  lemma {:induction false} OwnGenerationIff(decode: Decode, before: seq<Event>, sent: seq<Event>)
    requires sent != [] && forall e :: e in sent ==> CanStart(e.packet)
    ensures PartsOf(before + sent).current == sent <==> Begins(PartsOf(before), sent[0]) && Together(sent)
    ensures |PartsOf(before + sent).current| == |sent| ==> PartsOf(before + sent).current == sent
    ensures PartsOf(before + sent).current != []
    decreases |sent|
  {
    hide Restarts, Begins, Extend, PartsOf, Together, CanStart;
    var init, e := sent[..|sent| - 1], sent[|sent| - 1];
    assert sent == init + [e] && before + sent == (before + init) + [e] && e in sent;
    PartsMore(before + init, e);
    if init == [] {
      assert before + init == before && sent == [e];
      OwnFirst(PartsOf(before), e);
    } else {
      assert init[0] == sent[0] && forall d :: d in init ==> d in sent;
      OwnGenerationIff(decode, before, init);
      TogetherMore(init, e);
      OwnMore(PartsOf(before + init), init, e);
    }
  }

  lemma OwnFirst(parts: Parts, e: Event)
    requires CanStart(e.packet)
    ensures var current := Extend(parts, e).current;
            && current != [] && (|current| == 1 ==> current == [e])
            && (current == [e] <==> Begins(parts, e)) && Together([e])
  {
    hide Restarts;
  }

  lemma OwnMore(parts: Parts, sent: seq<Event>, e: Event)
    requires CanStart(e.packet) && sent != [] && parts.current != []
    requires |parts.current| == |sent| ==> parts.current == sent
    ensures var current := Extend(parts, e).current;
            && current != [] && (|current| == |sent + [e]| ==> current == sent + [e])
            && (current == sent + [e] <==> parts.current == sent && !Restarts(sent, e))
  {
    hide Restarts, CanStart;
  }

  lemma TogetherMore(sent: seq<Event>, e: Event)
    requires sent != []
    ensures Together(sent + [e]) <==> Together(sent) && !Restarts(sent, e)
  {
    hide Restarts;
    var more := sent + [e];
    assert more[..|sent|] == sent && more[|sent|] == e;
    assert forall i :: 0 <= i < |sent| ==> more[..i] == sent[..i] && more[i] == sent[i];
  }

  function Indices(events: seq<Event>): set<nat> {
    set e | e in events :: e.packet.unitIndex
  }

  /** Within a sending a packet restarts if it is late, is unit 0, or comes after all units are there. */
  lemma RestartsOfSending(encode: Encode, decode: Decode, sendings: seq<Sending>, sent: seq<Event>, e: Event)
    requires sent != [] && AllCome(encode, decode, sendings, sent + [e])
    requires forall d :: d in sent + [e] ==> d.sending == e.sending
    ensures e.sending < |sendings| && Arrived(sent) == Indices(sent)
    ensures Restarts(sent, e) <==>
            Late(sent[0], e) || e.packet.unitIndex == 0 || |Indices(sent)| == sendings[e.sending].Total()
  {
    hide IsErasureCode, Late, Sending.Units;
    assert e in sent + [e] && Comes(encode, decode, sendings, e);
    var s := sendings[e.sending];
    forall d | d in sent
      ensures d.packet.total == s.Total() && d.packet.fec == s.fec && Fits(sent[0].packet, d.packet)
    {
      assert d in sent + [e] && sent[0] in sent + [e];
      assert Comes(encode, decode, sendings, d) && Comes(encode, decode, sendings, sent[0]);
    }
  }

  /** In time and without repetitions, packets of a sending stay together if unit 0 comes first or not at all. */
  lemma TogetherOfDistinct(encode: Encode, decode: Decode, sendings: seq<Sending>, sent: seq<Event>)
    requires AllCome(encode, decode, sendings, sent) && forall d, e :: d in sent && e in sent ==> d.sending == e.sending
    requires forall i, j :: 0 <= i < j < |sent| ==> sent[i].packet.unitIndex != sent[j].packet.unitIndex
    requires forall i :: 1 <= i < |sent| ==> !Late(sent[0], sent[i])
    ensures Together(sent) <==> forall i :: 1 <= i < |sent| ==> sent[i].packet.unitIndex != 0
  {
    hide Comes, Restarts, Late;
    forall i | 1 <= i < |sent| ensures Restarts(sent[..i], sent[i]) <==> sent[i].packet.unitIndex == 0 {
      var next := sent[..i] + [sent[i]];
      assert forall e :: e in next ==> e in sent;
      RestartsOfSending(encode, decode, sendings, sent[..i], sent[i]);
      assert Indices(next) == Indices(sent[..i]) + {sent[i].packet.unitIndex};
      assert sent[i].packet.unitIndex !in Indices(sent[..i]);
      IndicesWithin(encode, decode, sendings, next, sent[i].sending);
      assert sent[..i][0] == sent[0];
    }
  }

  lemma IndicesWithin(encode: Encode, decode: Decode, sendings: seq<Sending>, sent: seq<Event>, s: nat)
    requires AllCome(encode, decode, sendings, sent) && s < |sendings| && forall e :: e in sent ==> e.sending == s
    ensures |Indices(sent)| <= sendings[s].Total()
  {
    forall i | i in Indices(sent) ensures i < sendings[s].Total() {
      var e :| e in sent && e.packet.unitIndex == i;
      assert Comes(encode, decode, sendings, e);
    }
    BelowBound(Indices(sent), sendings[s].Total());
  }

  lemma {:induction false} BelowBound(a: set<nat>, n: nat)
    requires forall x :: x in a ==> x < n
    ensures |a| <= n
    decreases n
  {
    if n == 0 {
      assert a == {};
    } else {
      BelowBound(a - {n - 1}, n - 1);
    }
  }

  /** The frames of the source units among `arrived`, in order. */
  function Handed(s: Sending, id: nat, first: nat, arrived: set<nat>, n: nat): seq<AudioFrame>
    requires n <= |s.data|
  {
    if n == 0 then []
    else Handed(s, id, first, arrived, n - 1) +
         if n - 1 in arrived then [AudioFrame(id, n - 1, (first + (n - 1)) % U16, s.data[n - 1], s.haptics)] else []
  }

  /** A generation all of whose units come from `s` has those that arrived in their slots. */
  ghost predicate HoldsSending(encode: Encode, decode: Decode, g: Generation, s: Sending, arrived: set<nat>)
    requires s.Valid() && s.Coded(encode, decode)
  {
    && WellFormed(g) && g.k == |s.data| && g.m == s.fec && g.unitSize == s.size
    && forall i: nat :: i < s.Total() ==>
         && g.units[i] == (if i in arrived then s.Units(encode, decode)[i] else [])
         && (g.haptics[i] <==> s.haptics && i in arrived)
  }

  lemma OneHolds(encode: Encode, decode: Decode, sendings: seq<Sending>, id: nat, part: seq<Event>)
    requires part != [] && AllCome(encode, decode, sendings, part) && OfOne(part)
    ensures Comes(encode, decode, sendings, part[0]) && Started?(part)
    ensures HoldsSending(encode, decode, GenerationOf(id, part), sendings[part[0].sending], Arrived(part))
  {
    hide IsErasureCode, Received, Arrived, OfOne, GenerationOf, Sending.Units, Fitted;
    assert part[0] in part && Comes(encode, decode, sendings, part[0]);
    var s, g := sendings[part[0].sending], GenerationOf(id, part);
    StarterKept(encode, decode, sendings, part);
    OfOneStarter(encode, decode, sendings, part);
    SlotsOfPart(id, part);
    forall i: nat | i < s.Total()
      ensures g.units[i] == (if i in Arrived(part) then s.Units(encode, decode)[i] else [])
      ensures g.haptics[i] <==> s.haptics && i in Arrived(part)
    {
      assert HoldsFirst(g, part, i);
      ArrivedIff(part, i);
      if i in Arrived(part) {
        var e := FirstOf(part, i).value;
        assert e in part && Comes(encode, decode, sendings, e) && SendingOf(part, i) == Some(part[0].sending);
        FittedFull(e.packet.data);
      }
    }
  }

  lemma FittedFull(data: seq<byte>)
    ensures Fitted(data, |data|) == data
  {
    PaddedFull(data);
  }

  lemma {:induction false} EmitHeld(encode: Encode, decode: Decode, g: Generation, s: Sending, arrived: set<nat>,
                                    n: nat)
    requires s.Valid() && s.Coded(encode, decode) && n <= |s.data| && HoldsSending(encode, decode, g, s, arrived)
    ensures Emit(g, g.units, n) == Handed(s, g.id, g.first, arrived, n)
    decreases n
  {
    hide Received, IsErasureCode;
    if n > 0 {
      EmitHeld(encode, decode, g, s, arrived, n - 1);
      assert s.Units(encode, decode)[n - 1] == s.data[n - 1];
    }
  }

  /** With fewer than k units nothing is tried, and what is handed on is what is there. */
  lemma TooFewFate(decode: Decode, g: Generation)
    requires WellFormed(g) && Received(g.units, g.k + g.m) < g.k
    ensures Fate(decode, g) == Emit(g, g.units, g.k)
  {
  }

  lemma EnoughFate(encode: Encode, decode: Decode, g: Generation, s: Sending, arrived: set<nat>)
    requires s.Valid() && s.Coded(encode, decode) && HoldsSending(encode, decode, g, s, arrived)
    requires Received(g.units, g.k + g.m) >= g.k
    ensures |Fate(decode, g)| == |s.data|
    ensures forall i :: 0 <= i < |s.data| ==>
              Fate(decode, g)[i] == AudioFrame(g.id, i, (g.first + i) % U16, s.data[i], s.haptics && i in arrived)
  {
    hide Received, Fate, Emit;
    CodeShape(encode, decode, |s.data|, s.fec, s.size, s.data);
    assert s.Units(encode, decode) == s.data + encode(s.fec, s.data);
    EnoughUnitsFate(encode, decode, g, s.data);
  }

  /**
   Forward error correction over every run: of an ended generation that holds units of one
   sending only, any k of them, source or FEC, in any order, have given all k source units
   with the sender's bytes; fewer have given exactly the source units among them.
   */
  lemma SendingHandedOn(encode: Encode, decode: Decode, sendings: seq<Sending>, events: seq<Event>, id: nat)
    requires AllCome(encode, decode, sendings, events)
    requires 1 <= id <= |PartsOf(events).ended|
    requires var part := PartsOf(events).ended[id - 1]; part != [] ==> OfOne(part)
    ensures var part, out := PartsOf(events).ended[id - 1], Of(Run(decode, events).output, id);
            && part != [] && part[0].sending < |sendings|
            && var s, first := sendings[part[0].sending], part[0].packet.frameIndex;
               if |Arrived(part)| >= |s.data| then
                 && |out| == |s.data|
                 && forall i :: 0 <= i < |s.data| ==>
                      out[i] == AudioFrame(id, i, (first + i) % U16, s.data[i], s.haptics && i in Arrived(part))
               else out == Handed(s, id, first, Arrived(part), |s.data|)
  {
    hide Run, PartsOf, Received, IsErasureCode, Of, Fate, Handed, Emit, Arrived, OfOne, GenerationOf, Comes;
    OfEndedPart(decode, events, id);
    var part := PartsOf(events).ended[id - 1];
    forall e | e in part ensures Comes(encode, decode, sendings, e) {
      PartWithin(events, id, e);
    }
    OneHolds(encode, decode, sendings, id, part);
    SendingOfStarter(encode, decode, sendings, part[0]);
    var g, s := GenerationOf(id, part), sendings[part[0].sending];
    SlotsOfPart(id, part);
    CountOfPart(g, part);
    if |Arrived(part)| >= |s.data| {
      EnoughFate(encode, decode, g, s, Arrived(part));
    } else {
      TooFewFate(decode, g);
      EmitHeld(encode, decode, g, s, Arrived(part), |s.data|);
    }
  }

  lemma SendingOfStarter(encode: Encode, decode: Decode, sendings: seq<Sending>, e: Event)
    requires Comes(encode, decode, sendings, e)
    ensures e.sending < |sendings| && sendings[e.sending].Valid() && sendings[e.sending].Coded(encode, decode)
  {
  }

  /**
   Of two units without FEC, unit 1 arrives first: it comes out alone and under the number
   after its own, because unit 0 ends its generation, and unit 0 is alone in the next.
   */
  lemma UnitZeroLate(decode: Decode, x: byte, y: byte)
    ensures var h := Run(decode, [Event(Packet(101, 1, 2, 0, [x], false), 0, 0, 0),
                                  Event(Packet(100, 0, 2, 0, [y], false), 0, 0, 0)]);
            && h.output == [AudioFrame(1, 1, 102, [x], false)]
            && h.state.lastId == 2 && h.state.current.Some? && h.state.current.value.units == [[y], []]
  {
    var e0 := Event(Packet(101, 1, 2, 0, [x], false), 0, 0, 0);
    var e1 := Event(Packet(100, 0, 2, 0, [y], false), 0, 0, 0);
    assert [e0, e1][..1] == [e0] && [e0][..0] == [];
    FirstOfTwo(decode, State(0, None), e0.packet);
    var h := Run(decode, [e0]);
    assert Run(decode, []) == History(State(0, None), []);
    SecondOfTwo(decode, h.state, e1.packet);
  }

  lemma FirstOfTwo(decode: Decode, s: State, p: Packet)
    requires s.current.None? && p.unitIndex == 1 && p.total == 2 && p.fec == 0 && |p.data| == 1 && !p.isHaptics
    ensures var g := Generation(s.lastId + 1, p.frameIndex, 2, 0, 1, [[], p.data], [false, false], false, 0);
            Put(decode, s, p, 0, 0) == Outcome(State(s.lastId + 1, Some(g)), [], true)
  {
    var g := Started(s.lastId + 1, p, 0);
    assert g.units == [[], []] && g.haptics == [false, false];
    assert g.units[1 := p.data] == [[], p.data] && g.haptics[1 := false] == [false, false];
    assert Received([[], p.data], 2) == 1;
    FittedFull(p.data);
    assert Stored(g, p).units == [[], p.data];
  }

  lemma SecondOfTwo(decode: Decode, s: State, p: Packet)
    requires Valid(s) && s.current.Some? && p.unitIndex == 0 && p.total == 2 && p.fec == 0 && |p.data| == 1
    requires !p.isHaptics
    requires var g := s.current.value;
             g.k == 2 && g.m == 0 && !g.emitted && g.units[0] == [] && |g.units[1]| == 1
    ensures var o, g := Put(decode, s, p, 0, 0), s.current.value;
            && o.frames == [AudioFrame(g.id, 1, (g.first + 1) % U16, g.units[1], g.haptics[1])]
            && o.state.lastId == s.lastId + 1 && o.state.current.Some?
            && o.state.current.value.units == [p.data, []]
  {
    var g := s.current.value;
    assert Received(g.units, 2) == 1;
    assert FinalUnits(decode, g) == g.units;
    assert Emit(g, g.units, 1) == Emit(g, g.units, 0) == [];
    assert Emit(g, g.units, 2) == [AudioFrame(g.id, 1, (g.first + 1) % U16, g.units[1], g.haptics[1])];
    var next := Started(s.lastId + 1, p, 0);
    assert next.units == [[], []];
    assert next.units[0 := p.data] == [p.data, []];
    assert Received([p.data, []], 2) == 1;
    FittedFull(p.data);
    assert Stored(next, p).units == [p.data, []];
  }

  /** Two source units and one FEC unit, all of one byte. */
  function OfThree(id: nat, first: nat, units: seq<Unit>, emitted: bool): Generation {
    Generation(id, first, 2, 1, 1, units, [false, false, false], emitted, 0)
  }

  predicate IsOfThree(p: Packet, unit: nat) {
    p.unitIndex == unit && p.total == 3 && p.fec == 1 && |p.data| == 1 && !p.isHaptics
  }

  lemma UnitZero(decode: Decode, s: State, p: Packet)
    requires Valid(s) && IsOfThree(p, 0) && EndingOf(decode, s) == []
    ensures Put(decode, s, p, 0, 0) ==
            Outcome(State(s.lastId + 1, Some(OfThree(s.lastId + 1, p.frameIndex, [p.data, [], []], false))), [], true)
  {
    hide EndingOf;
    var g := Started(s.lastId + 1, p, 0);
    assert g.units == [[], [], []] && g.haptics == [false, false, false];
    assert g.units[0 := p.data] == [p.data, [], []] && g.haptics[0 := false] == [false, false, false];
    assert Received([p.data, [], []], 2) == 1;
    FittedFull(p.data);
    assert Stored(g, p).units == [p.data, [], []];
  }

  lemma UnitOne(decode: Decode, id: nat, first: nat, a: Unit, p: Packet)
    requires IsOfThree(p, 1) && |a| == 1
    ensures var g, h := OfThree(id, first, [a, [], []], false), OfThree(id, first, [a, p.data, []], true);
            && Valid(State(id, Some(g))) && Valid(State(id, Some(h)))
            && Put(decode, State(id, Some(g)), p, 0, 0) ==
               Outcome(State(id, Some(h)), [AudioFrame(id, 0, first % U16, a, false),
                                            AudioFrame(id, 1, (first + 1) % U16, p.data, false)], true)
  {
    var g, h := OfThree(id, first, [a, [], []], false), OfThree(id, first, [a, p.data, []], true);
    assert Received(g.units, 2) == 1 && Received(g.units, 3) == 1 && Received(h.units, 2) == 2;
    FittedFull(p.data);
    assert g.units[1 := p.data] == h.units && g.haptics[1 := false] == h.haptics;
    assert Stored(g, p) == h;
    assert Emit(h, h.units, 1) == Emit(h, h.units, 0) + [AudioFrame(id, 0, first % U16, a, false)];
    assert Emit(h, h.units, 2) == Emit(h, h.units, 1) + [AudioFrame(id, 1, (first + 1) % U16, p.data, false)];
  }

  lemma UnitTwo(decode: Decode, id: nat, first: nat, a: Unit, b: Unit, p: Packet)
    requires IsOfThree(p, 2) && |a| == 1 && |b| == 1
    ensures var g, h := OfThree(id, first, [a, b, []], true), OfThree(id, first, [a, b, p.data], true);
            && Valid(State(id, Some(g))) && Valid(State(id, Some(h)))
            && Put(decode, State(id, Some(g)), p, 0, 0) == Outcome(State(id, Some(h)), [], true)
  {
    var g, h := OfThree(id, first, [a, b, []], true), OfThree(id, first, [a, b, p.data], true);
    assert Received(g.units, 2) == 2 && Received(g.units, 3) == 2 && Received(h.units, 2) == 2;
    FittedFull(p.data);
    assert g.units[2 := p.data] == h.units && g.haptics[2 := false] == h.haptics;
    assert Stored(g, p) == h;
  }

  /**
   Of a sending from number 100 only unit 0 arrives, and then unit 1 of the next, number 104:
   it is taken for unit 1 of the former and handed on under the number 101, although unit 0
   started the generation.
   */
  lemma WrongNumber(decode: Decode, a: byte, b: byte)
    ensures Run(decode, [Event(Packet(100, 0, 3, 1, [a], false), 0, 0, 0),
                         Event(Packet(104, 1, 3, 1, [b], false), 0, 0, 1)]) ==
            History(State(1, Some(OfThree(1, 100, [[a], [b], []], true))),
                    [AudioFrame(1, 0, 100, [a], false), AudioFrame(1, 1, 101, [b], false)])
  {
    hide Put, Valid;
    var e0 := Event(Packet(100, 0, 3, 1, [a], false), 0, 0, 0);
    var e1 := Event(Packet(104, 1, 3, 1, [b], false), 0, 0, 1);
    assert [e0, e1][..1] == [e0] && [e0][..0] == [];
    assert Run(decode, []) == History(State(0, None), []);
    UnitZero(decode, State(0, None), e0.packet);
    UnitOne(decode, 1, 100, [a], e1.packet);
  }

  /**
   Two of the three units of the second sending have arrived, in time, together and in one
   generation, which has ended; but that was the generation of the first, and the second's
   unit 0 is never handed on.
   */
  lemma UnitZeroLost(decode: Decode, a: byte, b: byte, fec: byte, c: byte)
    ensures Run(decode, [Event(Packet(100, 0, 3, 1, [a], false), 0, 0, 0),
                         Event(Packet(104, 1, 3, 1, [b], false), 0, 0, 1),
                         Event(Packet(105, 2, 3, 1, [fec], false), 0, 0, 1),
                         Event(Packet(106, 0, 3, 1, [c], false), 0, 0, 2)]) ==
            History(State(2, Some(OfThree(2, 106, [[c], [], []], false))),
                    [AudioFrame(1, 0, 100, [a], false), AudioFrame(1, 1, 101, [b], false)])
  {
    hide Put, Valid;
    var e0 := Event(Packet(100, 0, 3, 1, [a], false), 0, 0, 0);
    var e1 := Event(Packet(104, 1, 3, 1, [b], false), 0, 0, 1);
    var e2 := Event(Packet(105, 2, 3, 1, [fec], false), 0, 0, 1);
    var e3 := Event(Packet(106, 0, 3, 1, [c], false), 0, 0, 2);
    assert [e0, e1, e2, e3][..3] == [e0, e1, e2] && [e0, e1, e2][..2] == [e0, e1];
    WrongNumber(decode, a, b);
    UnitTwo(decode, 1, 100, [a], [b], e2.packet);
    UnitZero(decode, State(1, Some(OfThree(1, 100, [[a], [b], [fec]], true))), e3.packet);
  }
}
