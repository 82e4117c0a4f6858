/**
 Erasure coding of units laid out in a buffer (lib/src/fec.c). The code itself (Jerasure)
 is a pair of functions; that any k of k + m words recover the rest is a law they are
 required to meet, for the k, m and word size at hand.
 */
module FecSpec {
  import opened Common

  type Unit = seq<byte>

  /** The number of code words and the data words. */
  type Encode = (nat, seq<Unit>) -> seq<Unit>

  /** k, m, the k + m words and the indices of those that are missing. */
  type Decode = (nat, nat, seq<Unit>, seq<nat>) -> Option<seq<Unit>>

  predicate AllOfSize(words: seq<Unit>, size: nat) {
    forall i :: 0 <= i < |words| ==> |words[i]| == size
  }

  predicate AllWithin(words: seq<Unit>, size: nat) {
    forall i :: 0 <= i < |words| ==> |words[i]| <= size
  }

  /** Equal wherever nothing is missing. */
  predicate Agree(v: seq<Unit>, w: seq<Unit>, missing: seq<nat>) {
    |v| == |w| && forall i: nat :: i < |v| && i !in missing ==> v[i] == w[i]
  }

  /** Decoding gives up beyond m erasures, and only writes the missing words. */
  ghost predicate IsDecoder(decode: Decode) {
    forall k: nat, m: nat, words: seq<Unit>, missing: seq<nat>, size: nat ::
      |words| == k + m && AllOfSize(words, size) ==>
        var d := decode(k, m, words, missing);
        && (|missing| > m ==> d == None)
        && (d.Some? ==> AllOfSize(d.value, size) && Agree(d.value, words, missing))
  }

  lemma DecodedShape(decode: Decode, k: nat, m: nat, words: seq<Unit>, missing: seq<nat>, size: nat)
    requires IsDecoder(decode) && |words| == k + m && AllOfSize(words, size)
    ensures var d := decode(k, m, words, missing);
            && (|missing| > m ==> d == None)
            && (d.Some? ==> AllOfSize(d.value, size) && Agree(d.value, words, missing))
  {
  }

  /** Any k of the k + m words of a code recover its data. */
  ghost predicate IsErasureCode(encode: Encode, decode: Decode, k: nat, m: nat, size: nat) {
    && (forall data: seq<Unit> :: |data| == k && AllOfSize(data, size) ==>
          |encode(m, data)| == m && AllOfSize(encode(m, data), size))
    && (forall data: seq<Unit>, words: seq<Unit>, missing: seq<nat> ::
          |data| == k && AllOfSize(data, size) && AllOfSize(words, size) && Increasing(missing) && |missing| <= m
          && Agree(words, data + encode(m, data), missing) ==>
            var d := decode(k, m, words, missing);
            d.Some? && |d.value| == k + m && d.value[..k] == data)
  }

  lemma CodeShape(encode: Encode, decode: Decode, k: nat, m: nat, size: nat, data: seq<Unit>)
    requires IsErasureCode(encode, decode, k, m, size) && |data| == k && AllOfSize(data, size)
    ensures |encode(m, data)| == m && AllOfSize(encode(m, data), size)
  {
  }

  lemma CodeRecovers(encode: Encode, decode: Decode, k: nat, m: nat, size: nat, data: seq<Unit>,
                     words: seq<Unit>, missing: seq<nat>)
    requires IsErasureCode(encode, decode, k, m, size) && |data| == k && AllOfSize(data, size)
    requires AllOfSize(words, size) && Increasing(missing) && |missing| <= m
    requires Agree(words, data + encode(m, data), missing)
    ensures var d := decode(k, m, words, missing);
            d.Some? && |d.value| == k + m && d.value[..k] == data
  {
  }

  /** A unit followed by zeros. */
  function Padded(unit: Unit, size: nat): (p: Unit)
    requires |unit| <= size
    ensures |p| == size && p[..|unit|] == unit
  {
    unit + seq(size - |unit|, _ => 0)
  }

  function AllPadded(units: seq<Unit>, size: nat): (p: seq<Unit>)
    requires AllWithin(units, size)
    ensures |p| == |units| && AllOfSize(p, size)
    ensures forall i :: 0 <= i < |p| ==> p[i] == Padded(units[i], size)
  {
    seq(|units|, i requires 0 <= i < |units| => Padded(units[i], size))
  }

  /** How many of the first `n` units are there; an empty unit is a missing one. */
  function Received(units: seq<Unit>, n: nat): (c: nat)
    requires n <= |units|
    ensures c <= n
  {
    if n == 0 then 0 else Received(units, n - 1) + if units[n - 1] != [] then 1 else 0
  }

  /** The indices of the missing ones. */
  function Erasures(units: seq<Unit>, n: nat): (e: seq<nat>)
    requires n <= |units|
    ensures |e| == n - Received(units, n) && Increasing(e)
    ensures forall i: nat :: i in e <==> i < n && units[i] == []
  {
    if n == 0 then []
    else
      var e := Erasures(units, n - 1);
      assert forall i :: 0 <= i < |e| ==> e[i] in e;
      if units[n - 1] == [] then e + [n - 1] else e
  }

  lemma ErasuresNext(units: seq<Unit>, i: nat)
    requires i < |units|
    ensures Erasures(units, i + 1) == Erasures(units, i) + if units[i] == [] then [i] else []
  {
  }

  lemma {:induction false} ErasuresGrow(units: seq<Unit>, i: nat, n: nat)
    requires i <= n <= |units|
    ensures |Erasures(units, i)| <= |Erasures(units, n)|
  {
    if i < n {
      ErasuresGrow(units, i, n - 1);
    }
  }

  lemma {:induction false} ReceivedPut(units: seq<Unit>, i: nat, unit: Unit, n: nat)
    requires i < |units| && n <= |units| && units[i] == [] && unit != []
    ensures Received(units[i := unit], n) == Received(units, n) + if i < n then 1 else 0
  {
    if n > 0 {
      ReceivedPut(units, i, unit, n - 1);
    }
  }

  lemma {:induction false} NothingReceived(units: seq<Unit>, n: nat)
    requires n <= |units| && forall i :: 0 <= i < |units| ==> units[i] == []
    ensures Received(units, n) == 0
  {
    if n > 0 {
      NothingReceived(units, n - 1);
    }
  }

  lemma {:induction false} AllReceived(units: seq<Unit>, n: nat)
    requires n <= |units|
    ensures Received(units, n) == n <==> forall i :: 0 <= i < n ==> units[i] != []
  {
    if n > 0 {
      AllReceived(units, n - 1);
    }
  }

  /** The number of units that are there is the size of the set of their indices. */
  lemma {:induction false} ReceivedIsCardinality(units: seq<Unit>, n: nat)
    requires n <= |units|
    ensures |set i: nat | i < n && units[i] != []| == Received(units, n)
  {
    var s := set i: nat | i < n && units[i] != [];
    if n > 0 {
      ReceivedIsCardinality(units, n - 1);
      var t := set i: nat | i < n - 1 && units[i] != [];
      assert s == if units[n - 1] != [] then t + {n - 1} else t;
    } else {
      assert s == {};
    }
  }

  /** Where cell `i` begins in a buffer cut into cells of `stride` bytes. */
  function Offset(stride: nat, i: nat): nat {
    i * stride
  }

  /** The cell holds a unit followed by zeros. */
  predicate CellHolds(buf: seq<byte>, stride: nat, i: nat, unit: Unit) {
    var at := Offset(stride, i);
    at + stride <= |buf| && |unit| <= stride && buf[at..at + stride] == Padded(unit, stride)
  }

  predicate Holds(buf: seq<byte>, stride: nat, units: seq<Unit>) {
    forall i: nat :: i < |units| ==> CellHolds(buf, stride, i, units[i])
  }

  lemma OffsetIs(stride: nat, i: nat)
    ensures Offset(stride, i) == i * stride
  {
  }

  /** Cells follow each other without overlap. */
  lemma CellsApart(stride: nat, i: nat, j: nat)
    requires i < j
    ensures Offset(stride, i) + stride == Offset(stride, i + 1) <= Offset(stride, j)
  {
    MulMonotone(i + 1, j, stride);
  }

  lemma MulMonotone(a: nat, b: nat, n: nat)
    requires a <= b
    ensures a * n <= b * n
  {
    assert b * n == a * n + (b - a) * n;
  }

  /** The two buffers differ at most in cell `i`. */
  predicate SameElsewhere(before: seq<byte>, after: seq<byte>, stride: nat, i: nat) {
    var at := Offset(stride, i);
    at + stride <= |before| == |after| && after[..at] == before[..at] && after[at + stride..] == before[at + stride..]
  }

  /** Changing one cell leaves the others. */
  lemma CellWritten(before: seq<byte>, after: seq<byte>, stride: nat, units: seq<Unit>, i: nat, unit: Unit)
    requires Holds(before, stride, units) && i < |units|
    requires CellHolds(after, stride, i, unit) && SameElsewhere(before, after, stride, i)
    ensures Holds(after, stride, units[i := unit])
  {
    hide CellHolds, SameElsewhere;
    var written := units[i := unit];
    forall j: nat | j < |written| ensures CellHolds(after, stride, j, written[j]) {
      assert CellHolds(before, stride, j, units[j]);
      if j != i {
        OtherCell(before, after, stride, i, j, units[j]);
      }
    }
  }

  lemma OtherCell(before: seq<byte>, after: seq<byte>, stride: nat, i: nat, j: nat, unit: Unit)
    requires i != j && SameElsewhere(before, after, stride, i) && CellHolds(before, stride, j, unit)
    ensures CellHolds(after, stride, j, unit)
  {
    hide Offset, Padded;
    var x, y := Offset(stride, i), Offset(stride, j);
    if j < i {
      CellsApart(stride, j, i);
      PrefixSlice(after, before, x, y, y + stride);
    } else {
      CellsApart(stride, i, j);
      SuffixSlice(before, after, x + stride, y, y + stride);
    }
  }

  /** A cleared buffer holds no units. */
  lemma EmptyCells(buf: seq<byte>, stride: nat, units: seq<Unit>)
    requires |units| * stride <= |buf| && forall i :: 0 <= i < |units| * stride ==> buf[i] == 0
    requires forall i :: 0 <= i < |units| ==> units[i] == []
    ensures Holds(buf, stride, units)
  {
    forall i: nat | i < |units| ensures CellHolds(buf, stride, i, units[i]) {
      CellsApart(stride, i, |units|);
      assert buf[Offset(stride, i)..Offset(stride, i) + stride] == Padded([], stride);
    }
  }

  /** The bytes of a buffer from `at` on. */
  function Part(buf: seq<byte>, at: nat, n: nat): (part: seq<byte>)
    ensures at + n <= |buf| ==> |part| == n
  {
    if at + n <= |buf| then buf[at..at + n] else []
  }

  /** The beginnings of the cells, of the given sizes. */
  function Parts(buf: seq<byte>, stride: nat, sizes: seq<nat>): (parts: seq<Unit>)
    ensures |parts| == |sizes|
  {
    seq(|sizes|, i requires 0 <= i < |sizes| => Part(buf, Offset(stride, i), sizes[i]))
  }

  /** The first `size` bytes of each of `n` cells. */
  function Words(buf: seq<byte>, stride: nat, n: nat, size: nat): (words: seq<Unit>)
    ensures |words| == n
  {
    seq(n, i requires 0 <= i < n => Part(buf, Offset(stride, i), size))
  }

  lemma CellFits(stride: nat, i: nat, n: nat, length: nat)
    requires i < n && n * stride <= length
    ensures Offset(stride, i) + stride <= length
  {
    CellsApart(stride, i, n);
  }

  lemma WordsShape(buf: seq<byte>, stride: nat, n: nat, size: nat)
    requires n * stride <= |buf| && size <= stride
    ensures AllOfSize(Words(buf, stride, n, size), size)
  {
    forall i | 0 <= i < n ensures |Words(buf, stride, n, size)[i]| == size {
      CellFits(stride, i, n, |buf|);
    }
  }

  /** The buffer with `data` written at `at`. */
  function Overwrite(buf: seq<byte>, at: nat, data: seq<byte>): (after: seq<byte>)
    ensures |after| == |buf|
  {
    if at + |data| <= |buf| then buf[..at] + data + buf[at + |data|..] else buf
  }

  /** The buffer with a word written over the beginning of every cell. */
  function WithWords(buf: seq<byte>, stride: nat, words: seq<Unit>): (after: seq<byte>)
    ensures |after| == |buf|
  {
    if words == [] then buf
    else
      var n := |words| - 1;
      Overwrite(WithWords(buf, stride, words[..n]), Offset(stride, n), words[n])
  }

  lemma HeldCell(buf: seq<byte>, stride: nat, units: seq<Unit>, i: nat)
    requires Holds(buf, stride, units) && i < |units|
    ensures CellHolds(buf, stride, i, units[i])
  {
  }

  lemma CellPrefix(buf: seq<byte>, stride: nat, i: nat, unit: Unit, size: nat)
    requires CellHolds(buf, stride, i, unit) && |unit| <= size <= stride
    ensures Offset(stride, i) + stride <= |buf|
    ensures buf[Offset(stride, i)..Offset(stride, i) + size] == Padded(unit, size)
  {
    hide Offset;
    var at := Offset(stride, i);
    forall i: nat | i < size ensures buf[at..at + size][i] == Padded(unit, size)[i] {
      assert buf[at..at + size][i] == buf[at + i] == buf[at..at + stride][i];
      PaddedAt(unit, size, i);
      PaddedAt(unit, stride, i);
    }
  }

  /** Writing over a shorter unit leaves the cell with the new unit. */
  lemma Overwritten(buf: seq<byte>, stride: nat, units: seq<Unit>, i: nat, unit: Unit)
    requires Holds(buf, stride, units) && i < |units| && |units[i]| <= |unit| <= stride
    ensures Offset(stride, i) + stride <= |buf|
    ensures Holds(Overwrite(buf, Offset(stride, i), unit), stride, units[i := unit])
  {
    hide Offset, Holds;
    HeldCell(buf, stride, units, i);
    OverwrittenCell(buf, Offset(stride, i), stride, units[i], unit);
    CellWritten(buf, Overwrite(buf, Offset(stride, i), unit), stride, units, i, unit);
  }

  lemma OverwrittenCell(buf: seq<byte>, at: nat, stride: nat, held: Unit, unit: Unit)
    requires |held| <= |unit| <= stride && at + stride <= |buf| && buf[at..at + stride] == Padded(held, stride)
    ensures var after := Overwrite(buf, at, unit);
            && after[at..at + stride] == Padded(unit, stride)
            && after[..at] == buf[..at] && after[at + stride..] == buf[at + stride..]
  {
    hide Padded;
    var after := Overwrite(buf, at, unit);
    forall i: nat | i < stride ensures after[at..at + stride][i] == Padded(unit, stride)[i] {
      assert after[at..at + stride][i] == after[at + i];
      assert buf[at + i] == buf[at..at + stride][i] == Padded(held, stride)[i];
      OverwriteAt(buf, at, unit, at + i);
      PaddedAt(unit, stride, i);
      PaddedAt(held, stride, i);
    }
    forall k: nat | k < |buf| && (k < at || at + stride <= k) ensures after[k] == buf[k] {
      OverwriteAt(buf, at, unit, k);
    }
    SameSlice(after, buf, 0, at);
    SameSlice(after, buf, at + stride, |buf|);
  }

  lemma OverwriteAt(buf: seq<byte>, at: nat, data: seq<byte>, k: nat)
    requires at + |data| <= |buf| && k < |buf|
    ensures Overwrite(buf, at, data)[k] == if at <= k < at + |data| then data[k - at] else buf[k]
  {
  }

  lemma PaddedAt(unit: Unit, size: nat, i: nat)
    requires |unit| <= size && i < size
    ensures Padded(unit, size)[i] == if i < |unit| then unit[i] else 0
  {
  }

  /** Units held in a buffer, filled up with zeros, are its words. */
  lemma HeldWords(buf: seq<byte>, stride: nat, units: seq<Unit>, size: nat)
    requires Holds(buf, stride, units) && AllWithin(units, size) && size <= stride
    ensures |units| * stride <= |buf|
    ensures Words(buf, stride, |units|, size) == AllPadded(units, size)
  {
    hide Holds, CellHolds, Padded, Offset;
    HeldFit(buf, stride, units);
    forall i | 0 <= i < |units| ensures Words(buf, stride, |units|, size)[i] == Padded(units[i], size) {
      HeldCell(buf, stride, units, i);
      CellPrefix(buf, stride, i, units[i], size);
    }
  }

  lemma HeldFit(buf: seq<byte>, stride: nat, units: seq<Unit>)
    requires Holds(buf, stride, units)
    ensures |units| * stride <= |buf|
  {
    if |units| > 0 {
      HeldCell(buf, stride, units, |units| - 1);
      CellsApart(stride, |units| - 1, |units|);
    }
  }

  /** Words written over units that are no longer than they are. */
  lemma {:induction false} WordsHeld(buf: seq<byte>, stride: nat, units: seq<Unit>, words: seq<Unit>, n: nat)
    requires Holds(buf, stride, units) && n <= |words| <= |units|
    requires forall i :: 0 <= i < |words| ==> |units[i]| <= |words[i]| <= stride
    ensures Holds(WithWords(buf, stride, words[..n]), stride, words[..n] + units[n..])
  {
    hide Holds, Offset;
    if n == 0 {
      assert words[..n] + units[n..] == units;
    } else {
      WordsHeld(buf, stride, units, words, n - 1);
      assert words[..n][..n - 1] == words[..n - 1];
      var before := words[..n - 1] + units[n - 1..];
      Overwritten(WithWords(buf, stride, words[..n - 1]), stride, before, n - 1, words[n - 1]);
      assert before[n - 1 := words[n - 1]] == words[..n] + units[n..];
    }
  }

  /** In particular, words of the common size written over all of them. */
  lemma AllWordsHeld(buf: seq<byte>, stride: nat, units: seq<Unit>, words: seq<Unit>, size: nat)
    requires Holds(buf, stride, units) && |words| == |units| && AllWithin(units, size) && AllOfSize(words, size)
    requires size <= stride
    ensures Holds(WithWords(buf, stride, words), stride, words)
  {
    hide Holds, Offset;
    WordsHeld(buf, stride, units, words, |words|);
    assert words[..|words|] == words && words + units[|words|..] == words;
  }
}

/** chiaki_fec_decode and what it needs. */
module Fec {
  import opened Common
  import opened FecSpec

  /** Writes a unit over the beginning of cell `i`. */
  method WriteCell(buf: array<byte>, stride: nat, i: nat, unit: Unit)
    requires Offset(stride, i) + |unit| <= buf.Length
    modifies buf
    ensures buf[..] == Overwrite(old(buf[..]), Offset(stride, i), unit)
  {
    var at := i * stride;
    forall j | 0 <= j < |unit| {
      buf[at + j] := unit[j];
    }
  }

  /** The words handed to the decoder. */
  method ReadWords(buf: array<byte>, size: nat, stride: nat, n: nat) returns (words: seq<Unit>)
    requires n * stride <= buf.Length && size <= stride
    ensures words == Words(buf[..], stride, n, size)
  {
    words := [];
    for i := 0 to n
      invariant words == Words(buf[..], stride, i, size)
    {
      CellFits(stride, i, n, buf.Length);
      words := words + [buf[i * stride..i * stride + size]];
    }
  }

  /** chiaki_fec_decode: the decoder works on the first `size` bytes of every cell. */
  method DecodeCells(decode: Decode, buf: array<byte>, size: nat, stride: nat, k: nat, m: nat, erasures: seq<nat>)
    returns (ok: bool)
    requires IsDecoder(decode) && (k + m) * stride <= buf.Length
    modifies buf
    ensures ok <==> size <= stride && decode(k, m, Words(old(buf[..]), stride, k + m, size), erasures).Some?
    ensures ok ==> size <= stride && (
                     var decoded := decode(k, m, Words(old(buf[..]), stride, k + m, size), erasures).value;
                     buf[..] == WithWords(old(buf[..]), stride, decoded))
    ensures !ok ==> buf[..] == old(buf[..])
  {
    if stride < size {
      return false;
    }
    var words := ReadWords(buf, size, stride, k + m);
    match decode(k, m, words, erasures)
    case None => ok := false;
    case Some(decoded) =>
      ok := true;
      WordsShape(buf[..], stride, k + m, size);
      DecodedShape(decode, k, m, words, erasures, size);
      WriteWords(buf, size, stride, decoded);
  }

  method WriteWords(buf: array<byte>, size: nat, stride: nat, words: seq<Unit>)
    requires |words| * stride <= buf.Length && AllOfSize(words, size) && size <= stride
    modifies buf
    ensures buf[..] == WithWords(old(buf[..]), stride, words)
  {
    for i := 0 to |words|
      invariant buf[..] == WithWords(old(buf[..]), stride, words[..i])
    {
      CellFits(stride, i, |words|, buf.Length);
      WriteCell(buf, stride, i, words[i]);
      assert words[..i + 1][..i] == words[..i];
    }
    assert words[..|words|] == words;
  }
}
