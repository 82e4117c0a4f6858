/** Whole frames: from the units that were sent, in any order and with losses, to the flushed bytes. */
module FrameRuns {
  import opened Common
  import opened FecSpec
  import opened FrameSpec
  import opened FrameMemory

  /** A source unit says in its header how far it falls short of the common size. */
  predicate IsSource(unit: Unit, size: nat) {
    2 <= |unit| <= size && unit[0] as int * 0x100 + unit[1] as int == size - |unit|
  }

  lemma SourceHeader(unit: Unit, size: nat)
    requires IsSource(unit, size)
    ensures Header(unit) == size - |unit|
  {
  }

  /**
   The first packet fixes the size of all units: that of its own, and if it is a source
   packet of video then what its first two bytes, high byte first, say is missing.
   */
  lemma SizeOfFirst(p: Packet)
    requires AllocError(p) == Success
    ensures p.fec <= p.total
    ensures p.isVideo && p.unitIndex < p.total - p.fec ==>
              |p.data| >= 2 && Started(p).unitSize == |p.data| + 0x100 * (p.data[0] as int) + p.data[1] as int
    ensures !p.isVideo || p.unitIndex >= p.total - p.fec ==> Started(p).unitSize == |p.data|
  {
  }

  /** Exactly which first packets begin a frame: the slots and the bytes they announce must exist. */
  lemma StartsIff(p: Packet)
    ensures var size := Started(p).unitSize;
            var slots := Started(p).k + Started(p).m;
            AllocError(p) == Success <==>
            && p.fec <= p.total && (p.isVideo && p.unitIndex < p.total - p.fec ==> |p.data| >= 2)
            && size > 0 && slots <= 512 && slots * ((size + 15) / 16 * 16) < 0x1_0000_0000_0000_0000
  {
    StrideFits(UnitSize(p));
    if UnitSize(p) > 0 {
      QuotientTest(SourceUnits(p) + FecUnits(p), Stride(UnitSize(p)), SIZE_MAX);
    }
  }

  /** What a sender has: the source units of a frame, the number of its FEC units and the common size. */
  datatype Sending = Sending(sources: seq<Unit>, fec: nat, size: nat) {
    predicate Valid() {
      |sources| > 0 && forall i :: 0 <= i < |sources| ==> IsSource(sources[i], size)
    }

    function M(): nat {
      if fec < 1 then 1 else fec
    }

    /** There are slots and memory for it. */
    predicate Fits()
      requires Valid()
    {
      |sources| + M() <= 512 && |sources| + M() <= SIZE_MAX / Stride(UsableSize())
    }

    function UsableSize(): (n: nat)
      requires Valid()
      ensures n == size > 0
    {
      assert IsSource(sources[0], size);
      size
    }

    function Data(): (data: seq<Unit>)
      requires Valid()
      ensures |data| == |sources| && AllOfSize(data, size)
    {
      AllPadded(sources, size)
    }

    /** The source units as they are, then the FEC units. */
    ghost function Units(encode: Encode, decode: Decode): (units: seq<Unit>)
      requires Valid() && IsErasureCode(encode, decode, |sources|, M(), size)
      ensures |units| == |sources| + fec && AllWithin(units, size)
      ensures units[..|sources|] == sources && forall i :: 0 <= i < |units| ==> units[i] != []
    {
      var code := encode(M(), Data());
      CodeShape(encode, decode, |sources|, M(), size, Data());
      assert forall i :: 0 <= i < |sources| ==> IsSource(sources[i], size);
      assert IsSource(sources[0], size) && forall i :: 0 <= i < |code| ==> |code[i]| == size;
      sources + code[..fec]
    }

    ghost function PacketOf(encode: Encode, decode: Decode, i: nat): Packet
      requires Valid() && IsErasureCode(encode, decode, |sources|, M(), size) && i < |sources| + fec
    {
      Packet(true, i, |sources| + fec, fec, Units(encode, decode)[i])
    }

    /** Some of the packets of the frame, in any order, repeated or not. */
    ghost predicate Sent(encode: Encode, decode: Decode, packets: seq<Packet>)
      requires Valid() && IsErasureCode(encode, decode, |sources|, M(), size)
    {
      forall p :: p in packets ==> p.unitIndex < |sources| + fec && p == PacketOf(encode, decode, p.unitIndex)
    }
  }

  function Indices(packets: seq<Packet>): set<nat> {
    set p | p in packets :: p.unitIndex
  }

  /** Whichever packet comes first, the frame is refused or laid out in the same way. */
  lemma SameLayout(encode: Encode, decode: Decode, s: Sending, i: nat)
    requires s.Valid() && IsErasureCode(encode, decode, |s.sources|, s.M(), s.size) && i < |s.sources| + s.fec
    ensures var p := s.PacketOf(encode, decode, i);
            && Started(p) == Frame(|s.sources|, s.M(), s.size, NoUnits(|s.sources| + s.M()))
            && (AllocError(p) == Success <==> s.Fits())
  {
    hide Header;
    var p := s.PacketOf(encode, decode, i);
    if i < |s.sources| {
      assert p.data == s.Units(encode, decode)[..|s.sources|][i];
      assert IsSource(s.sources[i], s.size);
      SourceHeader(s.sources[i], s.size);
    } else {
      CodeShape(encode, decode, |s.sources|, s.M(), s.size, s.Data());
    }
  }

  ghost function Assembled(packets: seq<Packet>): Frame
    requires |packets| > 0 && AllocError(packets[0]) == Success
  {
    Puts(Started(packets[0]), packets)
  }

  /** The slots hold exactly the units whose packets arrived. */
  lemma {:induction false} SlotsHoldArrivals(encode: Encode, decode: Decode, s: Sending, packets: seq<Packet>, i: nat)
    requires s.Valid() && IsErasureCode(encode, decode, |s.sources|, s.M(), s.size) && s.Sent(encode, decode, packets)
    requires i < |s.sources| + s.M()
    ensures var f := Puts(Frame(|s.sources|, s.M(), s.size, NoUnits(|s.sources| + s.M())), packets);
            && |f.units| == |s.sources| + s.M()
            && f.units[i] == if i in Indices(packets) then s.Units(encode, decode)[i] else []
    decreases |packets|
  {
    hide Header, IsErasureCode;
    var start := Frame(|s.sources|, s.M(), s.size, NoUnits(|s.sources| + s.M()));
    if packets != [] {
      var rest, p := packets[..|packets| - 1], packets[|packets| - 1];
      assert packets == rest + [p];
      assert p in packets;
      SlotsHoldArrivals(encode, decode, s, rest, i);
      SlotsHoldArrivals(encode, decode, s, rest, p.unitIndex);
      assert Indices(packets) == Indices(rest) + {p.unitIndex};
    }
  }

  /** So as many are received as there are distinct indices among the packets. */
  lemma ReceivedIsArrived(encode: Encode, decode: Decode, s: Sending, packets: seq<Packet>)
    requires s.Valid() && IsErasureCode(encode, decode, |s.sources|, s.M(), s.size) && s.Sent(encode, decode, packets)
    requires |packets| > 0 && s.Fits()
    ensures AllocError(packets[0]) == Success
    ensures var f := Assembled(packets);
            && f.k == |s.sources| && f.m == s.M() && f.unitSize == s.size && |f.units| == f.k + f.m
            && WellFormed(f)
            && Received(f.units, f.k + f.m) == |Indices(packets)|
            && forall i: nat :: i < f.k + f.m ==>
                 f.units[i] == if i in Indices(packets) then s.Units(encode, decode)[i] else []
  {
    hide Header, IsErasureCode, Received, Puts, Put, Started, AllocError, Stride, Padded;
    assert packets[0] in packets;
    SameLayout(encode, decode, s, packets[0].unitIndex);
    var f := Assembled(packets);
    assert IsSource(s.sources[0], s.size);
    assert WellFormed(Started(packets[0])) && s.size > 0;
    forall i: nat | i < |f.units|
      ensures f.units[i] == if i in Indices(packets) then s.Units(encode, decode)[i] else []
    {
      SlotsHoldArrivals(encode, decode, s, packets, i);
    }
    CountedOnce(encode, decode, s, packets, f.units);
  }

  lemma CountedOnce(encode: Encode, decode: Decode, s: Sending, packets: seq<Packet>, units: seq<Unit>)
    requires s.Valid() && IsErasureCode(encode, decode, |s.sources|, s.M(), s.size) && s.Sent(encode, decode, packets)
    requires |units| == |s.sources| + s.M()
    requires forall i: nat :: i < |units| ==>
               units[i] == if i in Indices(packets) then s.Units(encode, decode)[i] else []
    ensures Received(units, |units|) == |Indices(packets)|
  {
    hide IsErasureCode, Received;
    ReceivedIsCardinality(units, |units|);
    forall i | i in Indices(packets) ensures i < |units| && units[i] != [] {
      var p :| p in packets && p.unitIndex == i;
    }
    assert (set i: nat | i < |units| && units[i] != []) == Indices(packets);
  }

  /**
   Any k of the units, source or FEC, in any order and whichever comes first, give the
   payloads of all k source units.
   */
  lemma AnyEnoughUnitsFlush(encode: Encode, decode: Decode, s: Sending, packets: seq<Packet>)
    requires s.Valid() && IsDecoder(decode) && IsErasureCode(encode, decode, |s.sources|, s.M(), s.size)
    requires s.Sent(encode, decode, packets) && |Indices(packets)| >= |s.sources| && s.Fits()
    ensures |packets| > 0 && AllocError(packets[0]) == Success && WellFormed(Assembled(packets))
    ensures FlushOutcome(decode, Assembled(packets)) in {Complete, FecRecovered}
    ensures FlushedBytes(decode, Assembled(packets)) == Payloads(s.sources, |s.sources|)
  {
    hide Header, IsErasureCode, Received, IsDecoder, AllocError;
    assert packets == [] ==> Indices(packets) == {};
    ReceivedIsArrived(encode, decode, s, packets);
    var f := Assembled(packets);
    AllReceived(f.units, f.k);
    var units := FinalUnits(decode, f);
    if NeedsFec(f) {
      FecRestores(encode, decode, s, packets);
    }
    SamePayloads(units, s.sources, |s.sources|);
  }

  /** The unit for some content: how far it falls short of the common size, high byte first, then the content. */
  function UnitFor(content: seq<byte>, size: nat): (unit: Unit)
    requires |content| + 2 <= size < |content| + 2 + 0x1_0000
    ensures IsSource(unit, size) && unit[2..] == content
  {
    var short := size - |content| - 2;
    [short / 0x100, short % 0x100] + content
  }

  predicate Sendable(contents: seq<seq<byte>>, size: nat) {
    |contents| > 0 && forall i :: 0 <= i < |contents| ==> |contents[i]| + 2 <= size < |contents[i]| + 2 + 0x1_0000
  }

  function SendingOf(contents: seq<seq<byte>>, fec: nat, size: nat): (s: Sending)
    requires Sendable(contents, size)
    ensures s.Valid() && |s.sources| == |contents| && s.size == size && s.fec == fec
  {
    Sending(seq(|contents|, i requires 0 <= i < |contents| => UnitFor(contents[i], size)), fec, size)
  }

  function Joined(contents: seq<seq<byte>>): seq<byte> {
    if contents == [] then [] else Joined(contents[..|contents| - 1]) + contents[|contents| - 1]
  }

  lemma {:induction false} PayloadsAreContents(contents: seq<seq<byte>>, units: seq<Unit>, n: nat)
    requires n <= |units| && n <= |contents|
    requires forall i :: 0 <= i < n ==> 2 <= |units[i]| && units[i][2..] == contents[i]
    ensures Payloads(units, n) == Joined(contents[..n])
  {
    if n > 0 {
      PayloadsAreContents(contents, units, n - 1);
      assert contents[..n][..n - 1] == contents[..n - 1];
    }
  }

  /**
   End to end: contents are put into units, and any k of the units with their code, in any
   order, flush to the contents, joined.
   */
  lemma ContentsFlush(
    encode: Encode, decode: Decode, contents: seq<seq<byte>>, fec: nat, size: nat, packets: seq<Packet>)
    requires Sendable(contents, size) && IsDecoder(decode)
    requires var s := SendingOf(contents, fec, size);
             && IsErasureCode(encode, decode, |contents|, s.M(), size) && s.Fits()
             && s.Sent(encode, decode, packets) && |Indices(packets)| >= |contents|
    ensures |packets| > 0 && AllocError(packets[0]) == Success && WellFormed(Assembled(packets))
    ensures FlushOutcome(decode, Assembled(packets)) in {Complete, FecRecovered}
    ensures FlushedBytes(decode, Assembled(packets)) == Joined(contents)
  {
    hide IsErasureCode, IsDecoder, AllocError, Assembled, FlushOutcome, FlushedBytes, Payloads, Joined;
    var s := SendingOf(contents, fec, size);
    AnyEnoughUnitsFlush(encode, decode, s, packets);
    PayloadsAreContents(contents, s.sources, |contents|);
    assert contents[..|contents|] == contents;
  }

  lemma FecRestores(encode: Encode, decode: Decode, s: Sending, packets: seq<Packet>)
    requires s.Valid() && IsDecoder(decode) && IsErasureCode(encode, decode, |s.sources|, s.M(), s.size)
    requires s.Sent(encode, decode, packets) && |Indices(packets)| >= |s.sources| && |packets| > 0 && s.Fits()
    requires AllocError(packets[0]) == Success && WellFormed(Assembled(packets)) && NeedsFec(Assembled(packets))
    ensures Recovered(decode, Assembled(packets)).Some?
    ensures var words := Recovered(decode, Assembled(packets)).value;
            |words| == |s.sources| + s.M() && AllOfSize(words, s.size) && words[..|s.sources|] == s.Data()
    ensures FinalUnits(decode, Assembled(packets))[..|s.sources|] == s.sources
  {
    hide Header, Received, IsDecoder, Payloads, IsErasureCode, Assembled, Padded, AllocError;
    ReceivedIsArrived(encode, decode, s, packets);
    var f := Assembled(packets);
    var data, k := s.Data(), |s.sources|;
    var code := encode(s.M(), data);
    var words, missing := AllPadded(f.units, f.unitSize), Erasures(f.units, f.k + f.m);
    CodeShape(encode, decode, k, s.M(), s.size, data);
    forall i: nat | i < |words| && i !in missing ensures words[i] == (data + code)[i] {
      assert i in Indices(packets);
      ArrivedWord(encode, decode, s, i);
    }
    CodeRecovers(encode, decode, k, s.M(), s.size, data, words, missing);
    var decoded := Recovered(decode, f).value;
    DecodedShape(decode, f.k, f.m, words, missing, f.unitSize);
    var units := FinalUnits(decode, f);
    forall i | 0 <= i < k ensures units[i] == s.sources[i] {
      assert decoded[i] == decoded[..k][i] == Padded(s.sources[i], s.size);
      assert IsSource(s.sources[i], s.size);
      HeaderOfPadded(s.sources[i], s.size);
    }
  }

  lemma ArrivedWord(encode: Encode, decode: Decode, s: Sending, i: nat)
    requires s.Valid() && IsErasureCode(encode, decode, |s.sources|, s.M(), s.size) && i < |s.sources| + s.fec
    ensures |encode(s.M(), s.Data())| == s.M()
    ensures Padded(s.Units(encode, decode)[i], s.size) == (s.Data() + encode(s.M(), s.Data()))[i]
  {
    var units := s.Units(encode, decode);
    var code := encode(s.M(), s.Data());
    CodeShape(encode, decode, |s.sources|, s.M(), s.size, s.Data());
    if i < |s.sources| {
      assert units[i] == units[..|s.sources|][i];
    } else {
      assert units[i] == code[i - |s.sources|] && |units[i]| == s.size;
      assert Padded(units[i], s.size) == units[i];
    }
  }

  lemma HeaderOfPadded(unit: Unit, size: nat)
    requires IsSource(unit, size)
    ensures Header(Padded(unit, size)) == size - |unit|
    ensures Padded(unit, size)[..|unit|] == unit
  {
  }

  /** The source units among those that arrived; the others are empty. */
  function Arrived(sources: seq<Unit>, indices: set<nat>): seq<Unit> {
    seq(|sources|, i requires 0 <= i < |sources| => if i in indices then sources[i] else [])
  }

  /** With fewer than k units nothing is recovered: the flushed bytes are those of the source units that arrived. */
  lemma TooFewUnits(encode: Encode, decode: Decode, s: Sending, packets: seq<Packet>)
    requires s.Valid() && IsDecoder(decode) && IsErasureCode(encode, decode, |s.sources|, s.M(), s.size)
    requires s.Sent(encode, decode, packets) && 0 < |packets| && |Indices(packets)| < |s.sources| && s.Fits()
    ensures AllocError(packets[0]) == Success && WellFormed(Assembled(packets))
    ensures FlushOutcome(decode, Assembled(packets)) == FecMissed
    ensures FlushedBytes(decode, Assembled(packets))
         == Payloads(Arrived(s.sources, Indices(packets)), |s.sources|)
  {
    hide Header, IsErasureCode, Received, IsDecoder, Padded, Payloads, Assembled, FlushOutcome, FinalUnits;
    hide Erasures, AllPadded, AllocError;
    ReceivedIsArrived(encode, decode, s, packets);
    var f := Assembled(packets);
    ReceivedMonotone(f.units, f.k, f.k + f.m);
    NothingRecovered(decode, f);
    var arrived := Arrived(s.sources, Indices(packets));
    forall i | 0 <= i < |s.sources| ensures f.units[i] == arrived[i] {
      assert s.Units(encode, decode)[..|s.sources|][i] == s.sources[i];
    }
    SamePayloads(f.units, arrived, |s.sources|);
  }

  lemma NothingRecovered(decode: Decode, f: Frame)
    requires WellFormed(f) && IsDecoder(decode) && Received(f.units, f.k + f.m) < f.k && Received(f.units, f.k) < f.k
    ensures FlushOutcome(decode, f) == FecMissed && FinalUnits(decode, f) == f.units
  {
    hide Received, IsDecoder, AllPadded, Erasures;
    assert |Erasures(f.units, f.k + f.m)| > f.m;
    DecodedShape(decode, f.k, f.m, AllPadded(f.units, f.unitSize), Erasures(f.units, f.k + f.m), f.unitSize);
  }

  lemma {:induction false} ReceivedMonotone(units: seq<Unit>, i: nat, n: nat)
    requires i <= n <= |units|
    ensures Received(units, i) <= Received(units, n)
  {
    if i < n {
      ReceivedMonotone(units, i, n - 1);
    }
  }

  /** A missing source unit comes out of the decoder with a sensible header. */
  lemma RecoveredHeader(encode: Encode, decode: Decode, s: Sending, packets: seq<Packet>, mem: Memory, i: nat)
    requires s.Valid() && IsDecoder(decode) && IsErasureCode(encode, decode, |s.sources|, s.M(), s.size)
    requires s.Sent(encode, decode, packets) && |Indices(packets)| >= |s.sources| && |packets| > 0 && s.Fits()
    requires AllocError(packets[0]) == Success && Intact(mem) && FrameOf(mem) == Assembled(packets)
    requires NeedsFec(FrameOf(mem)) && i < |s.sources|
    ensures Decoded(decode, mem).Some?
    ensures var written := WithDecoded(mem, Decoded(decode, mem).value);
            HeaderAt(written.buf, Offset(Stride(mem.size), i)) < mem.size
  {
    hide Header, HeaderAt, IsErasureCode, Received, IsDecoder, UnitsOf, Stride, Assembled, WithWords, Holds, Padded;
    hide Decoded;
    ReceivedIsArrived(encode, decode, s, packets);
    FecRestores(encode, decode, s, packets);
    DecodedIsRecovered(decode, mem);
    var words, stride := Decoded(decode, mem).value, Stride(mem.size);
    StrideFits(mem.size);
    UnitsShape(mem);
    AllWordsHeld(mem.buf, stride, UnitsOf(mem), words, mem.size);
    var written := WithDecoded(mem, words);
    HeldCell(written.buf, stride, words, i);
    HeaderInCell(written.buf, stride, i, words[i]);
    assert words[i] == words[..|s.sources|][i] == Padded(s.sources[i], s.size);
    assert IsSource(s.sources[i], s.size);
    HeaderOfPadded(s.sources[i], s.size);
  }

  /**
   Flushing the frame of a sending a second time: after a recovery it fails the assertion;
   otherwise the result is the same, and so are the bytes if and only if compaction has not
   changed a payload byte.
   */
  lemma SecondFlush(encode: Encode, decode: Decode, s: Sending, packets: seq<Packet>, mem: Memory)
    requires s.Valid() && IsDecoder(decode) && IsErasureCode(encode, decode, |s.sources|, s.M(), s.size)
    requires s.Sent(encode, decode, packets) && |packets| > 0 && s.Fits()
    requires AllocError(packets[0]) == Success && Intact(mem) && FrameOf(mem) == Assembled(packets)
    ensures var first := Compacted(Gathered(decode, mem));
            if Outcome(decode, mem) == FecRecovered then Aborts(first)
            else
              && !Aborts(first) && Outcome(decode, first) == Outcome(decode, mem)
              && (BytesOf(Gathered(decode, first)) == BytesOf(Gathered(decode, mem)) <==> PayloadsSurvive(mem))
  {
    hide Header, HeaderAt, IsErasureCode, Received, IsDecoder, UnitsOf, Stride, Assembled, BytesOf, Decoded, Compacted;
    hide PayloadsSurvive, Gathered, AllocError;
    ReceivedIsArrived(encode, decode, s, packets);
    if TriesFec(mem) && |Indices(packets)| >= |s.sources| {
      RecoveredAborts(encode, decode, s, packets, mem);
    } else {
      if TriesFec(mem) {
        TooFewUnrecovered(decode, mem);
      } else {
        CompleteUnrecovered(decode, mem);
      }
      SecondFlushIff(decode, mem);
    }
  }

  lemma RecoveredAborts(encode: Encode, decode: Decode, s: Sending, packets: seq<Packet>, mem: Memory)
    requires s.Valid() && IsDecoder(decode) && IsErasureCode(encode, decode, |s.sources|, s.M(), s.size)
    requires s.Sent(encode, decode, packets) && |Indices(packets)| >= |s.sources| && |packets| > 0 && s.Fits()
    requires AllocError(packets[0]) == Success && Intact(mem) && FrameOf(mem) == Assembled(packets) && TriesFec(mem)
    ensures Decoded(decode, mem).Some?
    ensures Aborts(Compacted(Gathered(decode, mem)))
  {
    hide Header, HeaderAt, IsErasureCode, Received, IsDecoder, UnitsOf, Stride, Assembled, BytesOf, Decoded, Compacted;
    hide Gathered, Aborts, WithWords;
    ReceivedIsArrived(encode, decode, s, packets);
    var i := MissingSource(mem);
    RecoveredHeader(encode, decode, s, packets, mem, i);
    SecondFlushAborts(decode, mem);
    assert 0 <= i < mem.k && mem.slots[i] == 0;
  }

  lemma MissingSource(mem: Memory) returns (i: nat)
    requires Intact(mem) && TriesFec(mem)
    ensures i < mem.k && mem.slots[i] == 0
  {
    hide Received;
    AllReceived(UnitsOf(mem), mem.k);
    i :| i < mem.k && UnitsOf(mem)[i] == [];
    UnitsShape(mem);
  }
}
