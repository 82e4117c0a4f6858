/** Frame assembly of lib/src/frameprocessor.c. */
module FrameSpec {
  import opened Common
  import opened FecSpec

  const UNIT_SLOTS_MAX := 512

  datatype Packet = Packet(isVideo: bool, unitIndex: nat, total: nat, fec: nat, data: seq<byte>)

  datatype ErrorCode = Success | InvalidData | BufTooSmall | Overflow | FecFailed

  datatype FlushResult = Complete | FecRecovered | FecMissed | Failed

  /** A frame of k source and m FEC units; a missing unit is empty. */
  datatype Frame = Frame(k: nat, m: nat, unitSize: nat, units: seq<Unit>)

  predicate WellFormed(f: Frame) {
    |f.units| == f.k + f.m && AllWithin(f.units, f.unitSize) && f.unitSize > 0
  }

  /** The big-endian number in front of a unit: how far it falls short of the common size. */
  function Header(unit: Unit): nat {
    (if |unit| > 0 then unit[0] as int * 0x100 else 0) + (if |unit| > 1 then unit[1] as int else 0)
  }

  function SourceUnits(p: Packet): nat {
    if p.total < p.fec then 0 else p.total - p.fec
  }

  /** There is always a slot for one FEC unit. */
  function FecUnits(p: Packet): nat {
    if p.fec < 1 then 1 else p.fec
  }

  function UnitSize(p: Packet): nat {
    |p.data| + if p.isVideo && p.unitIndex < SourceUnits(p) then Header(p.data) else 0
  }

  function Stride(unitSize: nat): nat {
    (unitSize + 0xf) / 0x10 * 0x10
  }

  lemma StrideFits(unitSize: nat)
    ensures unitSize <= Stride(unitSize) < unitSize + 0x10 && Stride(unitSize) % 0x10 == 0
    ensures unitSize > 0 ==> Stride(unitSize) >= 0x10
  {
  }

  function AllocError(p: Packet): ErrorCode {
    if p.total < p.fec then InvalidData
    else if p.isVideo && p.unitIndex < SourceUnits(p) && |p.data| < 2 then BufTooSmall
    else if UnitSize(p) == 0 then BufTooSmall
    else if SourceUnits(p) + FecUnits(p) > UNIT_SLOTS_MAX then InvalidData
    else if Stride(UnitSize(p)) > 0 && SourceUnits(p) + FecUnits(p) > SIZE_MAX / Stride(UnitSize(p)) then Overflow
    else Success
  }

  function NoUnits(n: nat): (units: seq<Unit>)
    ensures |units| == n && forall i :: 0 <= i < n ==> units[i] == []
  {
    seq(n, _ => [])
  }

  function Started(p: Packet): Frame {
    Frame(SourceUnits(p), FecUnits(p), UnitSize(p), NoUnits(SourceUnits(p) + FecUnits(p)))
  }

  predicate Accepts(f: Frame, p: Packet) {
    p.unitIndex < |f.units| && 0 < |p.data| <= f.unitSize && f.units[p.unitIndex] == []
  }

  function Put(f: Frame, p: Packet): (g: Frame)
    ensures WellFormed(f) ==> WellFormed(g)
    ensures g.k == f.k && g.m == f.m && g.unitSize == f.unitSize
  {
    if Accepts(f, p) then f.(units := f.units[p.unitIndex := p.data]) else f
  }

  function Puts(f: Frame, packets: seq<Packet>): (g: Frame)
    ensures WellFormed(f) ==> WellFormed(g)
    ensures g.k == f.k && g.m == f.m && g.unitSize == f.unitSize
    decreases |packets|
  {
    if packets == [] then f else Put(Puts(f, packets[..|packets| - 1]), packets[|packets| - 1])
  }

  /** What the erasure code makes of the words that are there. */
  function Recovered(decode: Decode, f: Frame): Option<seq<Unit>>
    requires WellFormed(f)
  {
    decode(f.k, f.m, AllPadded(f.units, f.unitSize), Erasures(f.units, f.k + f.m))
  }

  /** After decoding, the header of a source unit says how long it is; a nonsensical header changes nothing. */
  function Restored(f: Frame, words: seq<Unit>): (units: seq<Unit>)
    requires WellFormed(f) && |words| == |f.units| && AllOfSize(words, f.unitSize)
    ensures |units| == |f.units|
  {
    seq(|f.units|, i requires 0 <= i < |f.units| =>
      if i >= f.k || Header(words[i]) >= f.unitSize then f.units[i] else words[i][..f.unitSize - Header(words[i])])
  }

  /** A unit without its header. */
  function Payload(unit: Unit): seq<byte> {
    if |unit| < 2 then [] else unit[2..]
  }

  function Payloads(units: seq<Unit>, n: nat): (bytes: seq<byte>)
    requires n <= |units|
  {
    if n == 0 then [] else Payloads(units, n - 1) + Payload(units[n - 1])
  }

  predicate NeedsFec(f: Frame)
    requires WellFormed(f)
  {
    Received(f.units, f.k) < f.k
  }

  ghost function FlushOutcome(decode: Decode, f: Frame): FlushResult
    requires WellFormed(f)
  {
    if f.k == 0 then Failed
    else if !NeedsFec(f) then Complete
    else if Recovered(decode, f).Some? then FecRecovered
    else FecMissed
  }

  ghost function FinalUnits(decode: Decode, f: Frame): (units: seq<Unit>)
    requires WellFormed(f) && IsDecoder(decode)
    ensures |units| == |f.units|
  {
    if NeedsFec(f) && Recovered(decode, f).Some? then
      DecodedShape(decode, f.k, f.m, AllPadded(f.units, f.unitSize), Erasures(f.units, f.k + f.m), f.unitSize);
      Restored(f, Recovered(decode, f).value)
    else f.units
  }

  ghost function FlushedBytes(decode: Decode, f: Frame): seq<byte>
    requires WellFormed(f) && IsDecoder(decode)
  {
    Payloads(FinalUnits(decode, f), f.k)
  }

  lemma {:induction false} SamePayloads(units: seq<Unit>, sources: seq<Unit>, n: nat)
    requires n <= |units| && n <= |sources| && forall i :: 0 <= i < n ==> units[i] == sources[i]
    ensures Payloads(units, n) == Payloads(sources, n)
  {
    if n > 0 {
      SamePayloads(units, sources, n - 1);
    }
  }
}

/**
 The processor's memory, which is all a frame is to the source. Putting a unit and flushing
 are defined for every such memory, also for one that has been flushed before; as long as it
 has not, they are what FrameSpec says.
 */
module FrameMemory {
  import opened Common
  import opened FecSpec
  import opened FrameSpec

  /** The sizes in the slots, the buffer and the two counters of received units. */
  datatype Memory = Memory(k: nat, m: nat, size: nat, source: nat, fec: nat, slots: seq<nat>, buf: seq<byte>)

  /** Of each cell as much as its slot says. */
  function UnitsOf(mem: Memory): (units: seq<Unit>)
    ensures |units| == |mem.slots|
  {
    Parts(mem.buf, Stride(mem.size), mem.slots)
  }

  function FrameOf(mem: Memory): Frame {
    Frame(mem.k, mem.m, mem.size, UnitsOf(mem))
  }

  lemma UnitsShape(mem: Memory)
    requires |mem.slots| * Stride(mem.size) <= |mem.buf|
    requires forall i :: 0 <= i < |mem.slots| ==> mem.slots[i] <= mem.size
    ensures forall i :: 0 <= i < |mem.slots| ==>
              |UnitsOf(mem)[i]| == mem.slots[i] && Offset(Stride(mem.size), i) + Stride(mem.size) <= |mem.buf|
    ensures AllWithin(UnitsOf(mem), mem.size)
  {
    hide Stride, Offset;
    StrideFits(mem.size);
    forall i | 0 <= i < |mem.slots|
      ensures |UnitsOf(mem)[i]| == mem.slots[i] && Offset(Stride(mem.size), i) + Stride(mem.size) <= |mem.buf|
    {
      CellFits(Stride(mem.size), i, |mem.slots|, |mem.buf|);
    }
  }

  /** What every call after a successful allocation finds. */
  predicate Shaped(mem: Memory) {
    && mem.size > 0 && |mem.slots| == mem.k + mem.m && |mem.slots| * Stride(mem.size) <= |mem.buf|
    && (forall i :: 0 <= i < |mem.slots| ==> mem.slots[i] <= mem.size)
    && mem.source + mem.fec <= Received(UnitsOf(mem), mem.k + mem.m)
  }

  /** The units are where they were put, and the counters count them. */
  predicate Intact(mem: Memory): (intact: bool)
    ensures intact ==> WellFormed(FrameOf(mem))
  {
    && Shaped(mem)
    && (UnitsShape(mem); Holds(mem.buf, Stride(mem.size), UnitsOf(mem)))
    && mem.source == Received(UnitsOf(mem), mem.k)
    && mem.source + mem.fec == Received(UnitsOf(mem), mem.k + mem.m)
  }

  /** Only whether units are there matters. */
  lemma {:induction false} ReceivedAlike(u: seq<Unit>, v: seq<Unit>, n: nat)
    requires n <= |u| == |v| && forall i :: 0 <= i < n ==> u[i] != [] ==> v[i] != []
    ensures Received(u, n) <= Received(v, n)
    ensures Received(u, n) == Received(v, n) <==> forall i :: 0 <= i < n ==> v[i] != [] ==> u[i] != []
  {
    if n > 0 {
      ReceivedAlike(u, v, n - 1);
    }
  }

  predicate Takes(mem: Memory, p: Packet) {
    p.unitIndex < |mem.slots| && 0 < |p.data| <= mem.size && mem.slots[p.unitIndex] == 0
  }

  function PutInto(mem: Memory, p: Packet): Memory {
    if !Takes(mem, p) then mem
    else
      mem.(slots := mem.slots[p.unitIndex := |p.data|],
           buf := Overwrite(mem.buf, Offset(Stride(mem.size), p.unitIndex), p.data),
           source := mem.source + if p.unitIndex < mem.k then 1 else 0,
           fec := mem.fec + if p.unitIndex < mem.k then 0 else 1)
  }

  lemma PutKeepsShape(mem: Memory, p: Packet)
    requires Shaped(mem)
    ensures Shaped(PutInto(mem, p))
  {
    hide Received, UnitsOf, Stride, Overwrite, Offset;
    if Takes(mem, p) {
      var after := PutInto(mem, p);
      UnitsShape(mem);
      UnitsShape(after);
      CountOneMore(UnitsOf(mem), UnitsOf(after), p.unitIndex, p.data, |mem.slots|);
    }
  }

  /** One more unit is there. */
  lemma CountOneMore(u: seq<Unit>, v: seq<Unit>, i: nat, unit: Unit, n: nat)
    requires n <= |u| == |v| && i < |u| && u[i] == [] && unit != [] && v[i] != []
    requires forall j :: 0 <= j < |u| && j != i ==> (u[j] != [] <==> v[j] != [])
    ensures Received(v, n) == Received(u, n) + if i < n then 1 else 0
  {
    hide Received;
    ReceivedPut(u, i, unit, n);
    ReceivedAlike(u[i := unit], v, n);
    ReceivedAlike(v, u[i := unit], n);
  }

  /** While a memory is intact, putting a unit is putting it into the frame. */
  lemma PutIsPut(mem: Memory, p: Packet)
    requires Intact(mem)
    ensures WellFormed(FrameOf(mem)) && (Takes(mem, p) <==> Accepts(FrameOf(mem), p))
    ensures Intact(PutInto(mem, p)) && FrameOf(PutInto(mem, p)) == Put(FrameOf(mem), p)
  {
    hide Received, UnitsOf, Stride, Overwrite, Offset, Holds;
    PutKeepsShape(mem, p);
    UnitsShape(mem);
    StrideFits(mem.size);
    if Takes(mem, p) {
      var after, i := PutInto(mem, p), p.unitIndex;
      var units := UnitsOf(mem)[i := p.data];
      Overwritten(mem.buf, Stride(mem.size), UnitsOf(mem), i, p.data);
      HeldUnits(after, units);
      ReceivedPut(UnitsOf(mem), i, p.data, mem.k);
      ReceivedPut(UnitsOf(mem), i, p.data, mem.k + mem.m);
    }
  }

  /** The units of a memory are those that its buffer holds, if the slots have their sizes. */
  lemma HeldUnits(mem: Memory, units: seq<Unit>)
    requires Holds(mem.buf, Stride(mem.size), units) && |units| == |mem.slots|
    requires forall i :: 0 <= i < |units| ==> mem.slots[i] == |units[i]|
    ensures UnitsOf(mem) == units
  {
    hide Holds, Stride, Offset;
    forall i | 0 <= i < |units| ensures UnitsOf(mem)[i] == units[i] {
      HeldCell(mem.buf, Stride(mem.size), units, i);
      HeldPart(mem.buf, Stride(mem.size), i, units[i], |units[i]|);
      assert units[i][..|units[i]|] == units[i];
    }
  }

  lemma HeldPart(buf: seq<byte>, stride: nat, i: nat, word: Unit, n: nat)
    requires CellHolds(buf, stride, i, word) && n <= |word|
    ensures Part(buf, Offset(stride, i), n) == word[..n]
  {
    hide Offset;
    var at := Offset(stride, i);
    assert buf[at..at + n] == buf[at..at + stride][..n] == Padded(word, stride)[..n];
    assert Padded(word, stride)[..n] == Padded(word, stride)[..|word|][..n];
  }

  predicate TriesFec(mem: Memory) {
    mem.source < mem.k
  }

  /** The assertion that the erasures are as many as the counters say. */
  predicate Aborts(mem: Memory)
    requires |mem.slots| == mem.k + mem.m
  {
    TriesFec(mem) && Received(UnitsOf(mem), mem.k + mem.m) != mem.source + mem.fec
  }

  function Decoded(decode: Decode, mem: Memory): Option<seq<Unit>>
    requires |mem.slots| == mem.k + mem.m
  {
    decode(mem.k, mem.m, Words(mem.buf, Stride(mem.size), mem.k + mem.m, mem.size),
           Erasures(UnitsOf(mem), mem.k + mem.m))
  }

  function HeaderAt(buf: seq<byte>, at: nat): nat {
    if at + 1 < |buf| then buf[at] as int * 0x100 + buf[at + 1] else 0
  }

  /** The sizes of the source units, read off the headers in the cells. */
  function RestoredSizes(mem: Memory): (slots: seq<nat>)
    ensures |slots| == |mem.slots|
    ensures forall i :: 0 <= i < |slots| ==> slots[i] <= mem.slots[i] || slots[i] <= mem.size
    ensures forall i :: 0 <= i < |slots| ==> mem.slots[i] > 0 ==> slots[i] > 0
  {
    seq(|mem.slots|, i requires 0 <= i < |mem.slots| =>
      var padding := HeaderAt(mem.buf, Offset(Stride(mem.size), i));
      if i >= mem.k || padding >= mem.size then mem.slots[i] else mem.size - padding)
  }

  function WithDecoded(mem: Memory, words: seq<Unit>): Memory {
    mem.(buf := WithWords(mem.buf, Stride(mem.size), words))
  }

  function AfterFec(decode: Decode, mem: Memory): (after: Memory)
    requires |mem.slots| == mem.k + mem.m
    ensures |after.slots| == |mem.slots| && after.k == mem.k && after.m == mem.m
  {
    match Decoded(decode, mem)
    case None => mem
    case Some(words) =>
      var written := WithDecoded(mem, words);
      written.(slots := RestoredSizes(written))
  }

  /** The memory that is compacted. */
  function Gathered(decode: Decode, mem: Memory): (after: Memory)
    requires |mem.slots| == mem.k + mem.m
    ensures |after.slots| == |mem.slots| && after.k == mem.k && after.m == mem.m
  {
    if TriesFec(mem) then AfterFec(decode, mem) else mem
  }

  function Outcome(decode: Decode, mem: Memory): FlushResult
    requires |mem.slots| == mem.k + mem.m
  {
    if mem.k == 0 then Failed
    else if !TriesFec(mem) then Complete
    else if Decoded(decode, mem).Some? then FecRecovered
    else FecMissed
  }

  /** The payloads of the source units as the cells have them. */
  function BytesOf(mem: Memory): seq<byte>
    requires mem.k <= |mem.slots|
  {
    Payloads(UnitsOf(mem), mem.k)
  }

  /** The payloads moved to the beginning of the buffer, the rest as it was. */
  function Compacted(mem: Memory): (after: Memory)
    requires mem.k <= |mem.slots|
    ensures after.slots == mem.slots && after.k == mem.k && after.m == mem.m
  {
    var bytes := BytesOf(mem);
    if |bytes| <= |mem.buf| then mem.(buf := bytes + mem.buf[|bytes|..]) else mem
  }

  lemma GatheredShape(decode: Decode, mem: Memory)
    requires Shaped(mem)
    ensures Shaped(Gathered(decode, mem))
  {
    hide Received, Stride, UnitsOf, Words, Erasures, WithWords, HeaderAt;
    if TriesFec(mem) && Decoded(decode, mem).Some? {
      var after := Gathered(decode, mem);
      UnitsShape(mem);
      UnitsShape(after);
      ReceivedAlike(UnitsOf(mem), UnitsOf(after), |mem.slots|);
    }
  }

  /** A part only ever moves to a lower address. */
  lemma {:induction false} PayloadsFit(mem: Memory, n: nat)
    requires Shaped(mem) && n <= |mem.slots|
    ensures |Payloads(UnitsOf(mem), n)| <= Offset(Stride(mem.size), n) <= |mem.buf|
  {
    hide Stride, UnitsOf, Received;
    UnitsShape(mem);
    StrideFits(mem.size);
    if n > 0 {
      PayloadsFit(mem, n - 1);
      CellsApart(Stride(mem.size), n - 1, n);
    }
  }

  lemma CompactedShape(mem: Memory)
    requires Shaped(mem)
    ensures |BytesOf(mem)| <= |mem.buf| && Shaped(Compacted(mem))
  {
    hide Received, Stride, UnitsOf, Payloads;
    PayloadsFit(mem, mem.k);
    var after := Compacted(mem);
    UnitsShape(mem);
    UnitsShape(after);
    ReceivedAlike(UnitsOf(mem), UnitsOf(after), |mem.slots|);
  }

  /** The first flush of a frame: nothing aborts, and result and bytes are those of the frame. */
  lemma FlushIsFlush(decode: Decode, mem: Memory)
    requires Intact(mem) && IsDecoder(decode)
    ensures WellFormed(FrameOf(mem)) && !Aborts(mem)
    ensures Outcome(decode, mem) == FlushOutcome(decode, FrameOf(mem))
    ensures BytesOf(Gathered(decode, mem)) == FlushedBytes(decode, FrameOf(mem))
  {
    hide Received, Stride, UnitsOf, Holds, IsDecoder, Erasures, AllPadded, Words, AfterFec, Restored;
    UnitsShape(mem);
    var f := FrameOf(mem);
    DecodedIsRecovered(decode, mem);
    if TriesFec(mem) {
      RecoveredUnits(decode, mem);
      SamePayloads(UnitsOf(AfterFec(decode, mem)), FinalUnits(decode, f), mem.k);
    }
  }

  lemma DecodedIsRecovered(decode: Decode, mem: Memory)
    requires Intact(mem)
    ensures Decoded(decode, mem) == Recovered(decode, FrameOf(mem))
  {
    hide Received, Stride, UnitsOf, Holds, Erasures, AllPadded, Words;
    UnitsShape(mem);
    StrideFits(mem.size);
    HeldWords(mem.buf, Stride(mem.size), UnitsOf(mem), mem.size);
  }

  lemma RecoveredUnits(decode: Decode, mem: Memory)
    requires Intact(mem) && IsDecoder(decode) && WellFormed(FrameOf(mem)) && NeedsFec(FrameOf(mem))
    requires Decoded(decode, mem) == Recovered(decode, FrameOf(mem))
    ensures forall i :: 0 <= i < mem.k ==>
              UnitsOf(AfterFec(decode, mem))[i] == FinalUnits(decode, FrameOf(mem))[i]
  {
    hide Received, Stride, UnitsOf, Holds, IsDecoder, Erasures, Words, Header, HeaderAt, Decoded, WithWords;
    var f, stride := FrameOf(mem), Stride(mem.size);
    if Decoded(decode, mem).Some? {
      var words := Decoded(decode, mem).value;
      StrideFits(mem.size);
      DecodedShape(decode, f.k, f.m, AllPadded(f.units, f.unitSize), Erasures(f.units, f.k + f.m), f.unitSize);
      AllWordsHeld(mem.buf, stride, f.units, words, mem.size);
      UnitsShape(mem);
      var written := WithDecoded(mem, words);
      forall i | 0 <= i < mem.k ensures UnitsOf(AfterFec(decode, mem))[i] == Restored(f, words)[i] {
        HeldCell(written.buf, stride, words, i);
        RestoredUnit(decode, mem, words, i);
      }
    }
  }

  lemma RestoredUnit(decode: Decode, mem: Memory, words: seq<Unit>, i: nat)
    requires Shaped(mem) && WellFormed(FrameOf(mem)) && Decoded(decode, mem) == Some(words) && i < mem.k
    requires |words| == |mem.slots| && AllOfSize(words, mem.size) && |UnitsOf(mem)[i]| == mem.slots[i]
    requires Agree(words, AllPadded(UnitsOf(mem), mem.size), Erasures(UnitsOf(mem), mem.k + mem.m))
    requires CellHolds(WithDecoded(mem, words).buf, Stride(mem.size), i, words[i])
    ensures UnitsOf(AfterFec(decode, mem))[i] == Restored(FrameOf(mem), words)[i]
  {
    hide Received, Stride, Erasures, CellHolds, Decoded, WithWords, Header, HeaderAt, Offset, Padded;
    var written, stride := WithDecoded(mem, words), Stride(mem.size);
    StrideFits(mem.size);
    HeaderInCell(written.buf, stride, i, words[i]);
    var size := RestoredSizes(written)[i];
    HeldPart(written.buf, stride, i, words[i], size);
    assert UnitsOf(AfterFec(decode, mem))[i] == words[i][..size];
    var unit := UnitsOf(mem)[i];
    if Header(words[i]) >= mem.size {
      assert size == |unit|;
      assert unit != [] ==> words[i] == Padded(unit, mem.size) && Padded(unit, mem.size)[..|unit|] == unit;
    }
  }

  lemma HeaderInCell(buf: seq<byte>, stride: nat, i: nat, word: Unit)
    requires CellHolds(buf, stride, i, word) && stride >= 2
    ensures HeaderAt(buf, Offset(stride, i)) == Header(word)
  {
    hide Offset;
    var at := Offset(stride, i);
    assert buf[at] == buf[at..at + stride][0] && buf[at + 1] == buf[at..at + stride][1];
  }

  /** Payloads of equally long units are equal exactly if all their bytes are. */
  lemma {:induction false} PayloadsEqual(u: seq<Unit>, v: seq<Unit>, n: nat)
    requires n <= |u| == |v| && forall i :: 0 <= i < n ==> |u[i]| == |v[i]|
    ensures |Payloads(u, n)| == |Payloads(v, n)|
    ensures Payloads(u, n) == Payloads(v, n) <==>
            forall i, j :: 0 <= i < n && 2 <= j < |u[i]| ==> u[i][j] == v[i][j]
    decreases n
  {
    if n > 0 {
      PayloadsEqual(u, v, n - 1);
      PayloadEqual(u[n - 1], v[n - 1]);
      var a, b, x, y := Payloads(u, n - 1), Payload(u[n - 1]), Payloads(v, n - 1), Payload(v[n - 1]);
      if a + b == x + y {
        assert a == (a + b)[..|a|] == x && b == (a + b)[|a|..] == y;
      }
    }
  }

  lemma PayloadEqual(p: Unit, q: Unit)
    requires |p| == |q|
    ensures |Payload(p)| == |Payload(q)|
    ensures Payload(p) == Payload(q) <==> forall j :: 2 <= j < |p| ==> p[j] == q[j]
  {
    if Payload(p) == Payload(q) {
      assert forall j :: 2 <= j < |p| ==> p[j] == Payload(p)[j - 2] && q[j] == Payload(q)[j - 2];
    }
  }

  /** Wherever a payload byte lies among the bytes that compaction has written, it is still the same. */
  predicate PayloadsSurvive(mem: Memory)
    requires mem.k <= |mem.slots|
  {
    forall i, j :: 0 <= i < mem.k && 2 <= j < mem.slots[i] ==> ByteSurvives(mem, i, j)
  }

  predicate ByteSurvives(mem: Memory, i: nat, j: nat)
    requires mem.k <= |mem.slots|
  {
    var at := Offset(Stride(mem.size), i) + j;
    at < |BytesOf(mem)| && at < |mem.buf| ==> BytesOf(mem)[at] == mem.buf[at]
  }

  /** The bytes of a compacted memory are the same once more exactly if no payload byte was overwritten. */
  lemma CompactedTwiceIff(mem: Memory)
    requires Shaped(mem)
    ensures BytesOf(Compacted(mem)) == BytesOf(mem) <==> PayloadsSurvive(mem)
  {
    hide Received, Stride, Offset, UnitsOf, Payloads, BytesOf;
    CompactedShape(mem);
    var after := Compacted(mem);
    UnitsShape(mem);
    UnitsShape(after);
    StrideFits(mem.size);
    BytesOfBoth(mem, after);
    PayloadsEqual(UnitsOf(mem), UnitsOf(after), mem.k);
    forall i, j | 0 <= i < mem.k && 2 <= j < mem.slots[i]
      ensures UnitsOf(mem)[i][j] == UnitsOf(after)[i][j] <==> ByteSurvives(mem, i, j)
    {
      UnitByte(mem, i, j);
      UnitByte(after, i, j);
    }
  }

  lemma BytesOfBoth(mem: Memory, after: Memory)
    requires mem.k <= |mem.slots| && after.k == mem.k && after.slots == mem.slots
    ensures BytesOf(mem) == Payloads(UnitsOf(mem), mem.k) && BytesOf(after) == Payloads(UnitsOf(after), mem.k)
  {
  }

  lemma UnitByte(mem: Memory, i: nat, j: nat)
    requires i < |mem.slots| && j < mem.slots[i] && Offset(Stride(mem.size), i) + mem.slots[i] <= |mem.buf|
    ensures UnitsOf(mem)[i][j] == mem.buf[Offset(Stride(mem.size), i) + j]
  {
    hide Stride, Offset;
  }

  /** Nothing is recovered: all source units are there, or decoding fails. */
  predicate Unrecovered(decode: Decode, mem: Memory)
    requires |mem.slots| == mem.k + mem.m
  {
    TriesFec(mem) ==> Decoded(decode, mem).None?
  }

  /**
   When neither flush recovers anything, the second has the same result, and gives the bytes
   of the first if and only if compaction has not changed a payload byte.
   */
  lemma SecondFlushIff(decode: Decode, mem: Memory)
    requires Shaped(mem) && !Aborts(mem) && Unrecovered(decode, mem) && Unrecovered(decode, Compacted(mem))
    ensures var first := Compacted(Gathered(decode, mem));
            && !Aborts(first) && Outcome(decode, first) == Outcome(decode, mem)
            && (BytesOf(Gathered(decode, first)) == BytesOf(Gathered(decode, mem)) <==> PayloadsSurvive(mem))
  {
    hide Received, Stride, UnitsOf, Payloads, BytesOf, PayloadsSurvive, Decoded;
    CompactedTwiceIff(mem);
    SameUnitsThere(mem);
  }

  lemma SameUnitsThere(mem: Memory)
    requires Shaped(mem)
    ensures Shaped(Compacted(mem))
    ensures Received(UnitsOf(Compacted(mem)), mem.k + mem.m) == Received(UnitsOf(mem), mem.k + mem.m)
  {
    hide Received, Stride, UnitsOf, BytesOf;
    CompactedShape(mem);
    UnitsShape(mem);
    UnitsShape(Compacted(mem));
    ReceivedAlike(UnitsOf(mem), UnitsOf(Compacted(mem)), mem.k + mem.m);
  }

  /** That is so with fewer than k units, whatever the erasure code. */
  lemma TooFewUnrecovered(decode: Decode, mem: Memory)
    requires Shaped(mem) && IsDecoder(decode) && Received(UnitsOf(mem), mem.k + mem.m) < mem.k
    ensures Unrecovered(decode, mem) && Unrecovered(decode, Compacted(mem))
  {
    hide Received, Stride, UnitsOf, BytesOf, IsDecoder, Words;
    SameUnitsThere(mem);
    NoneDecoded(decode, mem);
    NoneDecoded(decode, Compacted(mem));
  }

  /** And with all source units there. */
  lemma CompleteUnrecovered(decode: Decode, mem: Memory)
    requires |mem.slots| == mem.k + mem.m && !TriesFec(mem)
    ensures Unrecovered(decode, mem) && Unrecovered(decode, Compacted(mem))
  {
    hide Decoded, BytesOf;
  }

  lemma NoneDecoded(decode: Decode, mem: Memory)
    requires Shaped(mem) && IsDecoder(decode) && Received(UnitsOf(mem), mem.k + mem.m) < mem.k
    ensures Decoded(decode, mem).None?
  {
    hide Received, Stride, UnitsOf, IsDecoder, Words, Erasures;
    var n := mem.k + mem.m;
    var words, missing := Words(mem.buf, Stride(mem.size), n, mem.size), Erasures(UnitsOf(mem), n);
    StrideFits(mem.size);
    WordsShape(mem.buf, Stride(mem.size), n, mem.size);
    assert |missing| > mem.m;
    DecodedShape(decode, mem.k, mem.m, words, missing, mem.size);
  }

  /**
   A second flush after units were recovered fails the assertion about the erasures, unless
   every missing source unit came out with a nonsensical header.
   */
  lemma SecondFlushAborts(decode: Decode, mem: Memory)
    requires Intact(mem) && TriesFec(mem) && Decoded(decode, mem).Some?
    ensures var written := WithDecoded(mem, Decoded(decode, mem).value);
            Aborts(Compacted(Gathered(decode, mem))) <==>
            exists i :: 0 <= i < mem.k && mem.slots[i] == 0
                        && HeaderAt(written.buf, Offset(Stride(mem.size), i)) < mem.size
  {
    hide Received, Stride, UnitsOf, Payloads, BytesOf, Holds, HeaderAt, Decoded, WithWords, Offset;
    var written := WithDecoded(mem, Decoded(decode, mem).value);
    GatheredShape(decode, mem);
    var after := Compacted(Gathered(decode, mem));
    CompactedShape(Gathered(decode, mem));
    UnitsShape(mem);
    UnitsShape(after);
    assert after.slots == RestoredSizes(written);
    ReceivedAlike(UnitsOf(mem), UnitsOf(after), |mem.slots|);
    forall i | 0 <= i < |mem.slots|
      ensures mem.slots[i] == 0 && after.slots[i] > 0 <==>
              i < mem.k && mem.slots[i] == 0 && HeaderAt(written.buf, Offset(Stride(mem.size), i)) < mem.size
    {
    }
  }

  /** Compaction has not kept a payload byte: one unit of three bytes, [7, 8, 9], gives [9, 8, 9] next. */
  lemma SecondFlushDiffers(decode: Decode, mem: Memory)
    requires mem.k == 1 && mem.size == 5 && |mem.slots| > 0 && mem.slots[0] == 5 && |mem.buf| >= 16
    requires mem.buf[..5] == [0, 0, 7, 8, 9]
    ensures BytesOf(mem) == [7, 8, 9]
    ensures BytesOf(Compacted(mem)) == [9, 8, 9]
  {
    var u := UnitsOf(mem)[0];
    assert Offset(Stride(5), 0) == 0;
    assert u == mem.buf[0..5] == [0, 0, 7, 8, 9];
    assert Payloads(UnitsOf(mem), 1) == Payloads(UnitsOf(mem), 0) + Payload(u);
    assert Payload(u) == [7, 8, 9];
    var after := Compacted(mem);
    var v := UnitsOf(after)[0];
    assert after.buf[0..5] == [7, 8, 9] + mem.buf[3..5];
    assert mem.buf[3] == mem.buf[..5][3] && mem.buf[4] == mem.buf[..5][4];
    assert v == [7, 8, 9, 8, 9];
    assert Payloads(UnitsOf(after), 1) == Payloads(UnitsOf(after), 0) + Payload(v);
  }
}

/** lib/src/frameprocessor.c. */
module FrameProcessor {
  import opened Common
  import opened FecSpec
  import opened FrameSpec
  import opened FrameMemory
  import Fec

  const PADDING_SIZE := 64

  class Processor {
    const decode: Decode
    var frameBuf: array<byte>
    var frameBufSize: nat
    var bufSizePerUnit: nat
    var bufStridePerUnit: nat
    var unitsSourceExpected: nat
    var unitsFecExpected: nat
    var unitsSourceReceived: nat
    var unitsFecReceived: nat
    var unitSlots: array<nat>
    var flushed: bool

    ghost function Mem(): Memory
      reads this, frameBuf, unitSlots
    {
      Memory(unitsSourceExpected, unitsFecExpected, bufSizePerUnit, unitsSourceReceived, unitsFecReceived,
             unitSlots[..], frameBuf[..])
    }

    ghost function Model(): Frame
      reads this, frameBuf, unitSlots
    {
      FrameOf(Mem())
    }

    /** What survives anything: enough for the next frame. */
    ghost predicate Owns()
      reads this, frameBuf
    {
      IsDecoder(decode) && (frameBufSize > 0 ==> frameBuf.Length == frameBufSize + PADDING_SIZE)
    }

    /** A frame has been allocated; it may have been flushed. */
    ghost predicate Ready(): (ready: bool)
      reads this, frameBuf, unitSlots
      ensures ready ==> Owns() && !flushed
    {
      Owns() && !flushed && bufStridePerUnit == Stride(bufSizePerUnit) && Shaped(Mem())
    }

    /** It has not been flushed. */
    ghost predicate Valid(): (valid: bool)
      reads this, frameBuf, unitSlots
      ensures valid ==> Owns() && !flushed
    {
      Ready() && Intact(Mem())
    }

    constructor (decode: Decode)
      requires IsDecoder(decode)
      ensures this.decode == decode
      ensures Owns() && flushed && unitsSourceExpected == 0 && fresh(frameBuf) && fresh(unitSlots)
      ensures unitsSourceReceived == unitsFecReceived == 0 && unitSlots.Length == 0
    {
      this.decode := decode;
      frameBuf, unitSlots := new byte[0], new nat[0];
      frameBufSize, bufSizePerUnit, bufStridePerUnit := 0, 0, 0;
      unitsSourceExpected, unitsFecExpected, unitsSourceReceived, unitsFecReceived := 0, 0, 0, 0;
      flushed := true;
    }

    /** Starts a frame from whichever of its packets came first. */
    method AllocFrame(packet: Packet) returns (err: ErrorCode)
      requires Owns()
      modifies this, frameBuf, unitSlots
      ensures err == AllocError(packet)
      ensures err == Success ==> Valid() && Model() == Started(packet)
      ensures fresh(frameBuf) || frameBuf == old(frameBuf)
      ensures fresh(unitSlots) || unitSlots == old(unitSlots)
    {
      hide Holds, Received, IsDecoder, Stride, UnitSize, UnitsOf, Intact;
      if packet.total < packet.fec {
        return InvalidData;
      }
      flushed := false;
      err := ReadSizes(packet);
      if err != Success {
        return;
      }
      unitsSourceReceived, unitsFecReceived := 0, 0;
      var slotsRequired := unitsSourceExpected + unitsFecExpected;
      if slotsRequired > UNIT_SLOTS_MAX {
        return InvalidData;
      }
      StrideFits(bufSizePerUnit);
      ClearSlots(slotsRequired);
      if slotsRequired > SIZE_MAX / bufStridePerUnit {
        return Overflow;
      }
      PrepareBuffer(slotsRequired);
    }

    /** Lines 76-111. */
    method ReadSizes(packet: Packet) returns (err: ErrorCode)
      requires packet.total >= packet.fec
      modifies this`unitsSourceExpected, this`unitsFecExpected, this`bufSizePerUnit, this`bufStridePerUnit
      ensures err == if packet.isVideo && packet.unitIndex < SourceUnits(packet) && |packet.data| < 2 then BufTooSmall
                     else if UnitSize(packet) == 0 then BufTooSmall else Success
      ensures err == Success ==>
                && unitsSourceExpected == SourceUnits(packet) && unitsFecExpected == FecUnits(packet)
                && bufSizePerUnit == UnitSize(packet) && bufStridePerUnit == Stride(bufSizePerUnit)
    {
      unitsSourceExpected := packet.total - packet.fec;
      unitsFecExpected := packet.fec;
      if unitsFecExpected < 1 {
        unitsFecExpected := 1;
      }
      bufSizePerUnit := |packet.data|;
      if packet.isVideo && packet.unitIndex < unitsSourceExpected {
        if |packet.data| < 2 {
          return BufTooSmall;
        }
        bufSizePerUnit := bufSizePerUnit + packet.data[0] as int * 0x100 + packet.data[1];
      }
      bufStridePerUnit := (bufSizePerUnit + 0xf) / 0x10 * 0x10;
      err := if bufSizePerUnit == 0 then BufTooSmall else Success;
    }

    method PrepareBuffer(slotsRequired: nat)
      requires Owns() && !flushed && slotsRequired == unitsSourceExpected + unitsFecExpected > 0
      requires bufSizePerUnit > 0 && bufStridePerUnit == Stride(bufSizePerUnit)
      requires unitsSourceReceived == unitsFecReceived == 0
      requires unitSlots.Length == slotsRequired && forall i :: 0 <= i < slotsRequired ==> unitSlots[i] == 0
      modifies this`frameBuf, this`frameBufSize, frameBuf
      ensures Valid() && UnitsOf(Mem()) == NoUnits(slotsRequired)
      ensures fresh(frameBuf) || frameBuf == old(frameBuf)
    {
      hide Holds, Received, IsDecoder, Stride, UnitsOf;
      StrideFits(bufSizePerUnit);
      MulMonotone(1, slotsRequired, bufStridePerUnit);
      ClearBuffer(slotsRequired * bufStridePerUnit);
      ghost var units := NoUnits(slotsRequired);
      EmptyCells(frameBuf[..], bufStridePerUnit, units);
      HeldUnits(Mem(), units);
      NothingReceived(units, unitsSourceExpected);
      NothingReceived(units, |units|);
    }

    method ClearSlots(n: nat)
      modifies this`unitSlots, unitSlots
      ensures unitSlots.Length == n && forall i :: 0 <= i < n ==> unitSlots[i] == 0
      ensures fresh(unitSlots) || unitSlots == old(unitSlots)
    {
      if n != unitSlots.Length {
        unitSlots := new nat[n];
      }
      forall i | 0 <= i < n {
        unitSlots[i] := 0;
      }
    }

    method ClearBuffer(required: nat)
      requires Owns() && required > 0
      modifies this`frameBuf, this`frameBufSize, frameBuf
      ensures Owns() && required + PADDING_SIZE <= frameBuf.Length
      ensures forall i :: 0 <= i < required ==> frameBuf[i] == 0
      ensures fresh(frameBuf) || frameBuf == old(frameBuf)
    {
      if frameBufSize < required {
        frameBuf := new byte[required + PADDING_SIZE];
        frameBufSize := required;
      }
      forall i | 0 <= i < required + PADDING_SIZE {
        frameBuf[i] := 0;
      }
    }

    /** Takes a unit, or rejects it with everything unchanged; also after a flush. */
    method PutUnit(packet: Packet) returns (err: ErrorCode)
      requires Ready()
      modifies this`unitsSourceReceived, this`unitsFecReceived, frameBuf, unitSlots
      ensures Ready() && Mem() == PutInto(old(Mem()), packet)
      ensures err == if Takes(old(Mem()), packet) then Success else InvalidData
      ensures old(Valid()) ==>
                && Valid() && Model() == Put(old(Model()), packet)
                && err == if Accepts(old(Model()), packet) then Success else InvalidData
    {
      hide Received, Holds, Overwrite, UnitsOf, Stride, Offset, Intact, Shaped;
      ghost var before := Mem();
      if Valid() {
        PutIsPut(before, packet);
      }
      PutKeepsShape(before, packet);
      if packet.unitIndex >= unitSlots.Length {
        return InvalidData;
      }
      if |packet.data| == 0 {
        return InvalidData;
      }
      if |packet.data| > bufSizePerUnit {
        return InvalidData;
      }
      if unitSlots[packet.unitIndex] != 0 {
        return InvalidData;
      }
      CellInBuffer(before, packet.unitIndex);
      unitSlots[packet.unitIndex] := |packet.data|;
      if !flushed {
        Fec.WriteCell(frameBuf, bufStridePerUnit, packet.unitIndex, packet.data);
      }
      if packet.unitIndex < unitsSourceExpected {
        unitsSourceReceived := unitsSourceReceived + 1;
      } else {
        unitsFecReceived := unitsFecReceived + 1;
      }
      err := Success;
      assert Mem() == PutInto(before, packet);
    }

    /** Whether the units that are there are at least as many as the source units. */
    method FlushPossible() returns (possible: bool)
      requires Ready()
      ensures possible <==> unitsSourceReceived + unitsFecReceived >= unitsSourceExpected
      ensures Valid() ==> (possible <==> Received(Model().units, Model().k + Model().m) >= Model().k)
    {
      hide Received, UnitsOf, Holds, Stride, Shaped;
      possible := unitsSourceReceived + unitsFecReceived >= unitsSourceExpected;
    }

    /** The erasure list: its length is known from the counters, and the assertion at the end says so. */
    method CollectErasures() returns (aborted: bool, erasures: array<nat>)
      requires Ready()
      ensures fresh(erasures)
      ensures aborted <==> Received(UnitsOf(Mem()), Mem().k + Mem().m) != unitsSourceReceived + unitsFecReceived
      ensures !aborted ==> erasures[..] == Erasures(UnitsOf(Mem()), Mem().k + Mem().m)
    {
      hide Received, Erasures, IsDecoder, UnitsOf, Stride;
      ghost var units := UnitsOf(Mem());
      UnitsShape(Mem());
      var n := unitsSourceExpected + unitsFecExpected;
      var erasuresCount := n - (unitsSourceReceived + unitsFecReceived);
      erasures := new nat[erasuresCount];
      var erasureIndex := 0;
      NoErasures(units);
      for i := 0 to n
        invariant erasureIndex == |Erasures(units, i)| && erasureIndex <= erasuresCount
        invariant erasures[..erasureIndex] == Erasures(units, i)
      {
        ErasuresNext(units, i);
        ErasuresGrow(units, i + 1, n);
        if unitSlots[i] == 0 {
          assert erasureIndex < erasuresCount;
          erasures[erasureIndex] := i;
          erasureIndex := erasureIndex + 1;
        }
      }
      aborted := erasureIndex != erasuresCount;
    }

    /** Decoding and, if it succeeds, restoring the sizes of the source units. */
    method AttemptFec() returns (aborted: bool, err: ErrorCode)
      requires Ready() && TriesFec(Mem())
      modifies frameBuf, unitSlots
      ensures aborted <==> Aborts(old(Mem()))
      ensures !aborted ==> err == if Decoded(decode, old(Mem())).Some? then Success else FecFailed
      ensures !aborted ==> Mem() == AfterFec(decode, old(Mem()))
    {
      hide Received, IsDecoder, Erasures, UnitsOf, Stride, Words, WithWords, RestoredSizes;
      var erasures;
      aborted, erasures := CollectErasures();
      if aborted {
        return true, FecFailed;
      }
      StrideFits(bufSizePerUnit);
      var ok := Fec.DecodeCells(decode, frameBuf, bufSizePerUnit, bufStridePerUnit, unitsSourceExpected,
                                unitsFecExpected, erasures[..]);
      if !ok {
        assert Mem() == old(Mem());
        return false, FecFailed;
      }
      assert Mem() == WithDecoded(old(Mem()), Decoded(decode, old(Mem())).value);
      RestoreSizes();
      err := Success;
    }

    /** The sizes that the headers of the source units give. */
    method RestoreSizes()
      requires unitSlots.Length == unitsSourceExpected + unitsFecExpected
      requires unitSlots.Length * bufStridePerUnit <= frameBuf.Length && bufSizePerUnit > 0
      requires bufStridePerUnit == Stride(bufSizePerUnit)
      modifies unitSlots
      ensures unitSlots[..] == RestoredSizes(old(Mem()))
    {
      hide Stride;
      ghost var mem := Mem();
      for i := 0 to unitsSourceExpected
        invariant forall j :: i <= j < unitSlots.Length ==> unitSlots[j] == mem.slots[j]
        invariant forall j :: 0 <= j < i ==> unitSlots[j] == RestoredSizes(mem)[j]
      {
        StrideFits(bufSizePerUnit);
        CellFits(bufStridePerUnit, i, unitSlots.Length, frameBuf.Length);
        var at := i * bufStridePerUnit;
        var padding := frameBuf[at] as int * 0x100 + frameBuf[at + 1];
        assert padding == HeaderAt(mem.buf, Offset(Stride(mem.size), i));
        if padding < bufSizePerUnit {
          unitSlots[i] := bufSizePerUnit - padding;
        }
      }
    }

    /**
     chiaki_frame_processor_flush: the result and the bytes, compacted in place at the
     beginning of the buffer. For a frame that has not been flushed before, these are the
     frame's; and whatever has happened to it, they are what the memory says.
     */
    method Flush() returns (aborted: bool, result: FlushResult, frameSize: nat)
      requires Ready()
      modifies frameBuf, unitSlots
      ensures aborted <==> unitsSourceExpected > 0 && Aborts(old(Mem()))
      ensures !aborted ==> result == Outcome(decode, old(Mem())) && Ready()
      ensures !aborted && result == Failed ==> Mem() == old(Mem())
      ensures !aborted && result != Failed ==>
                && Mem() == Compacted(Gathered(decode, old(Mem())))
                && frameSize <= frameBuf.Length && frameBuf[..frameSize] == BytesOf(Gathered(decode, old(Mem())))
      ensures old(Valid()) ==>
                && !aborted && result == FlushOutcome(decode, old(Model()))
                && (result != Failed ==> frameBuf[..frameSize] == FlushedBytes(decode, old(Model())))
    {
      hide Received, IsDecoder, UnitsOf, Stride, BytesOf, Intact, Shaped, Decoded, AfterFec, Compacted, FlushOutcome;
      ghost var mem := Mem();
      if Valid() {
        FlushIsFlush(decode, mem);
      }
      SlotsOfShape(mem);
      GatheredShape(decode, mem);
      CompactedShape(Gathered(decode, mem));
      aborted := false;
      if unitsSourceExpected == 0 || flushed {
        NothingExpected(decode, mem);
        return false, Failed, 0;
      }
      result := Complete;
      if unitsSourceReceived < unitsSourceExpected {
        var err;
        aborted, err := AttemptFec();
        if aborted {
          return true, Failed, 0;
        }
        if err == Success {
          result := FecRecovered;
        } else {
          result := FecMissed;
        }
      }
      assert Mem() == Gathered(decode, mem);
      frameSize := Compact();
    }

    /** The loop of memmove calls: a part only ever moves to lower addresses, and never over a later unit. */
    method Compact() returns (cur: nat)
      requires bufStridePerUnit == Stride(bufSizePerUnit) && Shaped(Mem())
      modifies frameBuf
      ensures cur <= frameBuf.Length && frameBuf[..cur] == BytesOf(old(Mem()))
      ensures Mem() == Compacted(old(Mem()))
    {
      hide Offset, Stride, UnitsOf, Received, Payloads, MovedDown, Shaped, Overwrite, BytesOf;
      ghost var mem := Mem();
      SlotsOfShape(mem);
      NothingMoved(mem);
      cur := 0;
      for i := 0 to unitsSourceExpected
        invariant MovedDown(mem, i, cur, frameBuf[..])
      {
        MovedSoFar(mem, i, cur, frameBuf[..]);
        OneMoreMoved(mem, i, cur, frameBuf[..]);
        if unitSlots[i] < 2 {
          continue;
        }
        MovePart(i, cur);
        cur := cur + (unitSlots[i] - 2);
      }
      AllMoved(mem, cur, frameBuf[..]);
    }

    /** One memmove. */
    method MovePart(i: nat, cur: nat)
      requires i < unitSlots.Length && unitSlots[i] >= 2
      requires cur <= Offset(bufStridePerUnit, i) && Offset(bufStridePerUnit, i) + unitSlots[i] <= frameBuf.Length
      modifies frameBuf
      ensures var at, n := Offset(bufStridePerUnit, i), unitSlots[i] - 2;
              frameBuf[..] == Overwrite(old(frameBuf[..]), cur, old(frameBuf[at + 2..at + 2 + n]))
    {
      hide Offset, Overwrite;
      OffsetIs(bufStridePerUnit, i);
      ghost var before := frameBuf[..];
      var partSize := unitSlots[i] - 2;
      var bufPtr := i * bufStridePerUnit;
      forall j | 0 <= j < partSize {
        frameBuf[cur + j] := frameBuf[bufPtr + 2 + j];
      }
      assert frameBuf[cur..cur + partSize] == before[bufPtr + 2..bufPtr + 2 + partSize];
      IsOverwrite(before, frameBuf[..], cur, before[bufPtr + 2..bufPtr + 2 + partSize]);
    }
  }

  /** The payloads of the first `i` units are at the beginning, and the rest of the buffer is as it was. */
  predicate MovedDown(mem: Memory, i: nat, cur: nat, buf: seq<byte>) {
    && i <= |mem.slots| && cur == |Payloads(UnitsOf(mem), i)| <= Offset(Stride(mem.size), i) <= |mem.buf|
    && buf == Payloads(UnitsOf(mem), i) + mem.buf[cur..]
  }

  lemma NothingMoved(mem: Memory)
    ensures MovedDown(mem, 0, 0, mem.buf)
  {
  }

  lemma MovedSoFar(mem: Memory, i: nat, cur: nat, buf: seq<byte>)
    requires Shaped(mem) && i < mem.k && MovedDown(mem, i, cur, buf)
    ensures cur <= Offset(Stride(mem.size), i) && Offset(Stride(mem.size), i) + mem.slots[i] <= |buf| == |mem.buf|
  {
    UnitsShape(mem);
    StrideFits(mem.size);
  }

  /** The cell of the next unit has not been touched yet. */
  lemma OneMoreMoved(mem: Memory, i: nat, cur: nat, buf: seq<byte>)
    requires Shaped(mem) && i < mem.k && MovedDown(mem, i, cur, buf)
    requires cur <= Offset(Stride(mem.size), i) && Offset(Stride(mem.size), i) + mem.slots[i] <= |buf|
    ensures if mem.slots[i] < 2 then MovedDown(mem, i + 1, cur, buf)
            else
              var at, n := Offset(Stride(mem.size), i), mem.slots[i] - 2;
              MovedDown(mem, i + 1, cur + n, Overwrite(buf, cur, buf[at + 2..at + 2 + n]))
  {
    hide Offset, Stride, Received, UnitsOf, Overwrite;
    UnitsShape(mem);
    PayloadsFit(mem, i + 1);
    var at, units := Offset(Stride(mem.size), i), UnitsOf(mem);
    UnitInCell(mem, i, buf, cur);
    var unit := units[i];
    if mem.slots[i] >= 2 {
      MovePayload(Payloads(units, i), mem.buf, buf, unit[2..]);
    }
  }

  lemma UnitInCell(mem: Memory, i: nat, buf: seq<byte>, cur: nat)
    requires i < |mem.slots| && cur <= Offset(Stride(mem.size), i)
    requires cur <= |buf| == |mem.buf| && buf[cur..] == mem.buf[cur..]
    requires Offset(Stride(mem.size), i) + mem.slots[i] <= |buf|
    ensures var at := Offset(Stride(mem.size), i); UnitsOf(mem)[i] == buf[at..at + mem.slots[i]]
  {
    hide Offset, Stride;
    var at := Offset(Stride(mem.size), i);
    SuffixSlice(mem.buf, buf, cur, at, at + mem.slots[i]);
  }

  lemma MovePayload(done: seq<byte>, start: seq<byte>, buf: seq<byte>, part: seq<byte>)
    requires |done| + |part| <= |start| && buf == done + start[|done|..]
    ensures Overwrite(buf, |done|, part) == done + part + start[|done| + |part|..]
  {
    assert buf[|done| + |part|..] == start[|done| + |part|..];
  }

  lemma IsOverwrite(before: seq<byte>, after: seq<byte>, at: nat, data: seq<byte>)
    requires at + |data| <= |before| == |after|
    requires after[..at] == before[..at] && after[at..at + |data|] == data
    requires after[at + |data|..] == before[at + |data|..]
    ensures after == Overwrite(before, at, data)
  {
    assert after == after[..at] + after[at..at + |data|] + after[at + |data|..];
  }

  lemma AllMoved(mem: Memory, cur: nat, buf: seq<byte>)
    requires mem.k <= |mem.slots| && MovedDown(mem, mem.k, cur, buf)
    ensures cur <= |buf| && buf[..cur] == BytesOf(mem) && buf == Compacted(mem).buf
  {
  }

  lemma NothingExpected(decode: Decode, mem: Memory)
    requires |mem.slots| == mem.k + mem.m && mem.k == 0
    ensures Outcome(decode, mem) == Failed
  {
  }

  lemma SlotsOfShape(mem: Memory)
    requires Shaped(mem)
    ensures |mem.slots| == mem.k + mem.m
  {
  }

  lemma NoErasures(units: seq<Unit>)
    ensures Erasures(units, 0) == []
  {
  }

  lemma CellInBuffer(mem: Memory, i: nat)
    requires Shaped(mem) && i < |mem.slots|
    ensures Offset(Stride(mem.size), i) + mem.size <= |mem.buf|
  {
    UnitsShape(mem);
    StrideFits(mem.size);
  }

  /** What a frame of one unit of five bytes has in memory, and what two flushes make of it. */
  lemma TwoFlushes(decode: Decode, p: Packet, mem: Memory)
    requires p == Packet(false, 0, 1, 0, [0, 0, 7, 8, 9])
    requires Intact(mem) && FrameOf(mem) == Put(Started(p), p)
    ensures Outcome(decode, mem) == Complete && !Aborts(mem)
    ensures BytesOf(Gathered(decode, mem)) == [7, 8, 9]
    ensures var next := Compacted(Gathered(decode, mem));
            && Outcome(decode, next) == Complete && !Aborts(next)
            && BytesOf(Gathered(decode, next)) == [9, 8, 9]
  {
    hide Holds, Payloads;
    var units := FrameOf(mem).units;
    assert Started(p) == Frame(1, 1, 5, NoUnits(2));
    assert units == [p.data, []];
    UnitsShape(mem);
    assert mem.slots[0] == |units[0]| == 5;
    assert Received(units, 1) == 1;
    assert mem.buf[..5] == p.data by {
      assert Offset(Stride(5), 0) == 0;
      assert units[0] == mem.buf[0..5];
    }
    SecondFlushDiffers(decode, mem);
  }

  /**
   A frame of one unit, put and flushed twice: compaction moved the payload over its own
   last byte, so the second flush gives other bytes.
   */
  method FlushTwice(decode: Decode) returns (first: seq<byte>, second: seq<byte>)
    requires IsDecoder(decode)
    ensures first == [7, 8, 9] && second == [9, 8, 9]
  {
    hide IsDecoder, Received, Holds, Payloads, Shaped, Intact, UnitsOf, BytesOf, Gathered, Compacted, Outcome;
    hide Aborts, FrameOf, Started, Put, AllocError, Takes, PutInto, Stride;
    var p := new Processor(decode);
    var packet := Packet(false, 0, 1, 0, [0, 0, 7, 8, 9]);
    PacketIsFine(packet);
    var err := p.AllocFrame(packet);
    err := p.PutUnit(packet);
    TwoFlushes(decode, packet, p.Mem());
    var aborted, result, size := p.Flush();
    first := p.frameBuf[..size];
    aborted, result, size := p.Flush();
    second := p.frameBuf[..size];
  }

  lemma PacketIsFine(p: Packet)
    requires p == Packet(false, 0, 1, 0, [0, 0, 7, 8, 9])
    ensures AllocError(p) == Success
  {
  }
}
