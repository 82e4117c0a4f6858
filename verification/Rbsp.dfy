/** The payload reader of lib/src/vl_rbsp.h and the start code search of lib/src/bitstream.c. */
module RbspSpec {
  import opened Common
  import opened BitSpec

  /** Whether the four bytes from byte `i` on are a start code. */
  predicate StartAt(bits: seq<bool>, i: nat) {
    8 * i + 32 <= |bits| && ToNat(bits[8 * i..8 * i + 32]) == 1
  }

  /** How far in the start code may be. */
  const SEARCH_MAX := 64

  function FirstStart(bits: seq<bool>, i: nat): (r: Read<nat>)
    ensures r.Got? ==> i <= r.value <= SEARCH_MAX && StartAt(bits, r.value)
    ensures r.Got? ==> forall j :: i <= j < r.value ==> !StartAt(bits, j)
    ensures r.Stopped? ==> forall j :: i <= j <= SEARCH_MAX ==> !StartAt(bits, j)
    decreases SEARCH_MAX + 1 - i
  {
    if i > SEARCH_MAX then Stopped else if StartAt(bits, i) then Got(i) else FirstStart(bits, i + 1)
  }

  /** A start code of three bytes further on. */
  predicate StartsAgain(bytes: seq<byte>, i: nat) {
    i + 3 <= |bytes| && bytes[i] == 0 && bytes[i + 1] == 0 && bytes[i + 2] == 1
  }

  /** One lies at or behind a bit position. */
  ghost predicate StartAhead(bytes: seq<byte>, pos: int) {
    exists i: nat :: pos <= 8 * i && StartsAgain(bytes, i)
  }

  /** None of the first `n` bytes can be taken for an emulation prevention byte. */
  ghost predicate Plain(bits: seq<bool>, n: nat) {
    forall j: nat :: j < n && 8 * j + 8 <= |bits| ==> bits[8 * j..8 * j + 8] != ByteBits(3)
  }

  /** Where reading a field ends, if it does. */
  function Reach(field: Read<Field>): Read<nat> {
    match field
    case Stopped => Stopped
    case Got(f) => Got(f.next)
  }

  /** How many bytes are loaded at most, to read up to a position. */
  function Loaded(reach: Read<nat>, size: nat): nat {
    match reach
    case Stopped => size
    case Got(end) => (end + 64) / 8
  }

  /** One of the `n` bytes loaded can be, and no more are loaded than it takes to read up to `reach`. */
  ghost predicate Excused(bits: seq<bool>, n: nat, reach: Read<nat>) {
    8 * n <= |bits| && !Plain(bits, n) && (reach.Got? ==> 8 * n <= reach.value + 64)
  }

  /** It is excused for whatever is read up to there or further. */
  lemma ExcusedFurther(bits: seq<bool>, n: nat, reach: Read<nat>, further: Read<nat>)
    requires Excused(bits, n, reach) && (further.Got? ==> reach.Got? && reach.value <= further.value)
    ensures Excused(bits, n, further)
  {
  }

  /** Loading more changes nothing, as long as it is not too much. */
  lemma ExcusedMore(bits: seq<bool>, n: nat, more: nat, reach: Read<nat>)
    requires Excused(bits, n, reach) && n <= more && 8 * more <= |bits|
    requires reach.Got? ==> 8 * more <= reach.value + 64
    ensures Excused(bits, more, reach)
  {
  }

  lemma PlainIsNotExcused(bits: seq<bool>, n: nat, reach: Read<nat>, size: nat)
    requires Plain(bits, Loaded(reach, size)) && 8 * size == |bits|
    ensures !Excused(bits, n, reach)
  {
  }
}

module Rbsp {
  import opened Common
  import opened BitSpec
  import opened BitReader
  import opened RbspSpec

  /** The loop of skip_startcode: to the first start code, or as far as it looks. */
  method SearchStart(vlc: Vlc) returns (i: nat, ok: bool)
    requires vlc.Valid() && vlc.Pos() == 0 && vlc.bytesLeft == vlc.input.Length
    modifies vlc`buffer, vlc`invalidBits, vlc`data
    ensures vlc.Valid() && (vlc.ValidBits() >= 32 || vlc.data == vlc.input.Length)
    ensures ok ==> i <= SEARCH_MAX && vlc.Pos() == 8 * i && FirstStart(vlc.bits, 0) == FirstStart(vlc.bits, i)
    ensures ok && !StartAt(vlc.bits, i) ==> FirstStart(vlc.bits, i).Stopped?
    ensures !ok ==> FirstStart(vlc.bits, 0).Stopped?
  {
    hide ToNat, Vlc.Valid, FirstStart, StartAt;
    vlc.FillBits();
    i, ok := 0, true;
    while i < SEARCH_MAX && vlc.BitsLeft() >= 32
      invariant 0 <= i <= SEARCH_MAX
      invariant vlc.Valid() && vlc.Pos() == 8 * i && (vlc.ValidBits() >= 32 || vlc.data == vlc.input.Length)
      invariant FirstStart(vlc.bits, 0) == FirstStart(vlc.bits, i)
    {
      PeekIsStart(vlc, i);
      if vlc.PeekBits(32) == 1 {
        return;
      }
      StartFurther(vlc.bits, i);
      ok := vlc.EatBits(8);
      if !ok {
        NoStart(vlc.bits, i + 1);
        return;
      }
      vlc.FillBits();
      i := i + 1;
    }
    if !StartAt(vlc.bits, i) {
      NoStart(vlc.bits, i);
    }
  }

  /** skip_startcode, from the beginning of the input. */
  method SkipStartcode(vlc: Vlc) returns (ok: bool)
    requires vlc.Valid() && vlc.Pos() == 0 && vlc.bytesLeft == vlc.input.Length
    modifies vlc`buffer, vlc`invalidBits, vlc`data
    ensures vlc.Valid() && (ok <==> FirstStart(vlc.bits, 0).Got?)
    ensures ok ==> vlc.Pos() == 8 * FirstStart(vlc.bits, 0).value + 32
    ensures ok ==> vlc.ValidBits() >= 32 || vlc.data == vlc.input.Length
  {
    hide ToNat, Vlc.Valid, FirstStart, StartAt;
    var i;
    i, ok := SearchStart(vlc);
    if !ok {
      return;
    }
    PeekIsStart(vlc, i);
    if vlc.PeekBits(32) != 1 {
      return false;
    }
    StartHere(vlc.bits, i);
    ok := vlc.EatBits(32);
    vlc.FillBits();
  }

  lemma StartFurther(bits: seq<bool>, i: nat)
    requires i < SEARCH_MAX && !StartAt(bits, i)
    ensures FirstStart(bits, i) == FirstStart(bits, i + 1)
  {
  }

  lemma StartHere(bits: seq<bool>, i: nat)
    requires i <= SEARCH_MAX && StartAt(bits, i)
    ensures FirstStart(bits, i) == Got(i)
  {
  }

  /** At the last offset, or with too little left, there is none further on. */
  lemma {:induction false} NoStart(bits: seq<bool>, i: nat)
    requires i <= SEARCH_MAX + 1
    requires i > SEARCH_MAX || (i == SEARCH_MAX && !StartAt(bits, i)) || |bits| < 8 * i + 32
    ensures FirstStart(bits, i).Stopped?
    decreases SEARCH_MAX + 1 - i
  {
    if i < SEARCH_MAX {
      NoStart(bits, i + 1);
    }
  }

  /** Peeking 32 bits tells whether there is a start code here; a short rest never looks like one. */
  lemma PeekIsStart(vlc: Vlc, i: nat)
    requires vlc.Valid() && vlc.Pos() == 8 * i && (vlc.ValidBits() >= 32 || vlc.data == vlc.input.Length)
    ensures vlc.PeekBits(32) == 1 <==> StartAt(vlc.bits, i)
    ensures StartAt(vlc.bits, i) ==> vlc.ValidBits() >= 32
  {
    if vlc.ValidBits() >= 32 {
      assert vlc.buffer[..32] == vlc.bits[vlc.Pos()..vlc.Pos() + 32];
    } else {
      var peeked := vlc.buffer[..32];
      assert !peeked[31];
      assert ToNat(peeked) == 2 * ToNat(peeked[..31]);
    }
  }

  class Reader {
    const nal: Vlc
    var escaped: nat
    /**
     A second start code lies ahead, or the scan for emulation prevention bytes found
     something. What the reader does then is not part of this model.
     */
    var special: bool

    ghost predicate Valid()
      reads this, nal, nal.input
    {
      nal.Valid() && escaped in {0, 8, 16}
    }

    /** vl_rbsp_init at a byte boundary. */
    constructor (nal: Vlc)
      requires nal.Valid() && nal.Pos() % 8 == 0
      ensures this.nal == nal && Valid()
      ensures special <==> StartAhead(nal.input[..], nal.Pos()) || Fires(nal.buffer, nal.ValidBits(), 24)
      ensures special ==>
                StartAhead(nal.input[..], nal.Pos()) || Excused(nal.bits, nal.data, Got(nal.Pos()))
    {
      hide ToNat, Plain, Vlc.Valid, StartAhead, Fires;
      this.nal := nal;
      escaped := 0;
      special := false;
      new;
      var from := nal.data - nal.ValidBits() / 8;
      assert 8 * from == nal.Pos();
      special := SearchStartcode(from);
      Scan(24);
      var valid := nal.ValidBits();
      escaped := if valid >= 16 then 16 else if valid >= 8 then 8 else 0;
    }

    /** Whether the NAL unit ends before the input does (lines 315-322). */
    method SearchStartcode(from: nat) returns (found: bool)
      ensures found <==> StartAhead(nal.input[..], 8 * from)
    {
      var i := from;
      while i + 3 <= nal.input.Length
        invariant forall j: nat :: from <= j < i ==> !StartsAgain(nal.input[..], j)
      {
        if nal.input[i] == 0 && nal.input[i + 1] == 0 && nal.input[i + 2] == 1 {
          assert StartsAgain(nal.input[..], i);
          return true;
        }
        i := i + 1;
      }
      found := false;
    }

    /** The scan for emulation prevention bytes in the valid bits (lines 326-331 and 362-370). */
    method Scan(first: nat)
      requires nal.Valid() && first >= 8 && (nal.Pos() + first) % 8 == 0
      modifies this`special
      ensures special == (old(special) || Fires(nal.buffer, nal.ValidBits(), first))
      ensures special == old(special) || Excused(nal.bits, nal.data, Got(nal.Pos()))
    {
      hide ToNat, Plain, Vlc.Valid, Fires, Window, Excused;
      var i := first;
      ghost var n := 0;
      while i <= nal.ValidBits()
        invariant 0 <= n && i == first + 8 * n
        invariant (special || Fires(nal.buffer, nal.ValidBits(), i))
               == (old(special) || Fires(nal.buffer, nal.ValidBits(), first))
        invariant special == old(special) || Excused(nal.bits, nal.data, Got(nal.Pos()))
      {
        FiresNext(nal.buffer, nal.ValidBits(), i);
        if ToNat(Window(nal.buffer, i)) == 3 {
          ModAddMultiple(nal.Pos() + first, 8, n);
          EscapeByte(nal, i);
          special := true;
        }
        i, n := i + 8, n + 1;
      }
      FiresNext(nal.buffer, nal.ValidBits(), i);
    }

    /** vl_rbsp_fillbits. */
    method FillBits()
      requires Valid()
      modifies this, nal`buffer, nal`invalidBits, nal`data
      ensures Valid() && nal.Pos() == old(nal.Pos()) && nal.data >= old(nal.data)
      ensures nal.ValidBits() >= 32 || nal.data == nal.input.Length
      ensures var scans := old(nal.ValidBits()) < 32 && nal.BitsLeft() >= 24;
              && escaped == (if scans then 16 else old(escaped))
              && special == (old(special) ||
                             (scans && Fires(nal.buffer, nal.ValidBits(), old(nal.ValidBits()) - old(escaped) + 24)))
      ensures special == old(special) || Excused(nal.bits, nal.data, Got(nal.Pos()))
    {
      hide ToNat, Plain, Vlc.Valid, Excused, Fires;
      var valid := nal.ValidBits();
      if valid >= 32 {
        return;
      }
      nal.FillBits();
      if nal.BitsLeft() < 24 {
        return;
      }
      var first := valid - escaped + 24;
      ScanAligned(old(nal.data), valid, escaped);
      escaped := 16;
      Scan(first);
    }

    lemma ScanAligned(data: nat, valid: int, escaped: nat)
      requires escaped in {0, 8, 16}
      ensures (8 * data - valid + (valid - escaped + 24)) % 8 == 0
    {
      assert 8 * data - valid + (valid - escaped + 24) == 8 * (data + 3 - escaped / 8);
    }

    /** vl_rbsp_u. */
    method U(n: nat) returns (r: Read<nat>)
      requires Valid() && !special && n <= 32
      modifies this, nal`buffer, nal`invalidBits, nal`data
      ensures Valid() && nal.data >= old(nal.data)
      ensures special ==>
                r.Stopped? && Excused(nal.bits, nal.data, Reach(BitSpec.U(nal.bits, old(nal.Pos()), n)))
      ensures !special ==> Reads(r, BitSpec.U(nal.bits, old(nal.Pos()), n), nal.Pos())
      ensures r.Got? && 0 < n <= ZEROS_MAX && nal.Pos() < |nal.bits| ==> nal.ValidBits() > 0
    {
      hide ToNat, Plain, Vlc.Valid, Excused, Fires;
      ghost var start := nal.Pos();
      if n == 0 {
        return Got(0);
      }
      FillBits();
      ghost var loaded := nal.data;
      if n > 16 {
        FillBits();
      }
      if special {
        if Excused(nal.bits, loaded, Got(nal.Pos())) {
          ExcusedMore(nal.bits, loaded, nal.data, Got(nal.Pos()));
        }
        ExcusedFurther(nal.bits, nal.data, Got(start), Reach(BitSpec.U(nal.bits, start, n)));
        return Stopped;
      }
      r := nal.GetUimsbf(n);
    }

    /** vl_rbsp_ue; a code with more than 30 leading zeros would be shifted out of range. */
    method Ue() returns (r: Read<nat>)
      requires Valid() && !special
      modifies this, nal`buffer, nal`invalidBits, nal`data
      ensures Valid() && nal.data >= old(nal.data)
      ensures special ==>
                r.Stopped? && Excused(nal.bits, nal.data, Reach(BitSpec.Ue(nal.bits, old(nal.Pos()))))
      ensures !special ==> Reads(r, BitSpec.Ue(nal.bits, old(nal.Pos())), nal.Pos())
      ensures r.Got? && nal.Pos() < |nal.bits| ==> nal.ValidBits() > 0
    {
      hide ToNat, Pow2, Plain, Vlc.Valid;
      FillBits();
      if special {
        return Stopped;
      }
      ghost var start := nal.Pos();
      var count :- CountZeros();
      if count > ZEROS_MAX {
        return Stopped;
      }
      var suffix :- U(count);
      r := Got(Pow2(count) - 1 + suffix);
    }

    /** Up to and including the first set bit, within the valid bits. */
    method CountZeros() returns (count: Read<nat>)
      requires nal.Valid() && (nal.ValidBits() >= 32 || nal.data == nal.input.Length)
      modifies nal`buffer, nal`invalidBits
      ensures nal.Valid()
      ensures var one := FirstOne(nal.bits, old(nal.Pos()));
              && (count.Got? ==> one == Got(old(nal.Pos()) + count.value) && nal.Pos() == one.value + 1
                                 && nal.ValidBits() == old(nal.ValidBits()) - count.value - 1)
              && (count.Stopped? ==> one.Stopped? || one.value - old(nal.Pos()) > ZEROS_MAX)
    {
      hide ToNat, Vlc.Valid;
      ghost var start := nal.Pos();
      var n := 0;
      var bit :- nal.GetUimsbf(1);
      while bit == 0
        invariant nal.Valid() && nal.Pos() == start + n + 1 <= |nal.bits|
        invariant bit == ToNat(nal.bits[start + n..start + n + 1])
        invariant FirstOne(nal.bits, start) == FirstOne(nal.bits, start + n)
        invariant nal.ValidBits() == old(nal.ValidBits()) - n - 1
        decreases nal.ValidBits()
      {
        OneBit(nal.bits, start + n);
        n := n + 1;
        bit :- nal.GetUimsbf(1);
      }
      OneBit(nal.bits, start + n);
      count := Got(n);
    }
  }

  lemma OneBit(bits: seq<bool>, i: nat)
    requires i < |bits|
    ensures ToNat(bits[i..i + 1]) == if bits[i] then 1 else 0
  {
    assert bits[i..i + 1] == [bits[i]] && [bits[i]][..0] == [];
    assert ToNat([]) == 0;
  }

  /** What was read is what the specification reads, and the position is the one after it. */
  predicate Reads(r: Read<nat>, field: Read<Field>, pos: int) {
    (r.Got? <==> field.Got?) && (r.Got? ==> r.value == field.value.value && pos == field.value.next)
  }

  /** The last 24 of the first `i` bits, or as many as there are. */
  function Window(buffer: Word, i: nat): seq<bool>
    requires i <= 64
  {
    buffer[if i < 24 then 0 else i - 24..i]
  }

  /** Some prefix of the valid bits, of `i` bits or a multiple of 8 more, ends in a three. */
  predicate Fires(buffer: Word, valid: int, i: nat)
    requires valid <= 64
    decreases valid - i
  {
    i <= valid && (ToNat(Window(buffer, i)) == 3 || Fires(buffer, valid, i + 8))
  }

  lemma FiresNext(buffer: Word, valid: int, i: nat)
    requires valid <= 64
    ensures Fires(buffer, valid, i) <==> i <= valid && (ToNat(Window(buffer, i)) == 3 || Fires(buffer, valid, i + 8))
  {
  }

  lemma EscapeByte(nal: Vlc, i: nat)
    requires nal.Valid() && 8 <= i <= nal.ValidBits() && (nal.Pos() + i) % 8 == 0
    requires ToNat(Window(nal.buffer, i)) == 3
    ensures Excused(nal.bits, nal.data, Got(nal.Pos()))
  {
    hide ToNat, ByteBits;
    var window := Window(nal.buffer, i);
    LastByte(window, 3);
    var j := (nal.Pos() + i) / 8 - 1;
    var pos := nal.Pos();
    assert 8 * j + 8 == pos + i;
    RegisterSlice(nal, i - 8, i);
    assert window[|window| - 8..] == nal.buffer[i - 8..i];
  }

  lemma SliceOfSlice(bits: seq<bool>, a: nat, b: nat, i: nat, j: nat)
    requires i <= j <= b - a && a <= b <= |bits|
    ensures bits[a..b][i..j] == bits[a + i..a + j]
  {
    var x, y := bits[a..b][i..j], bits[a + i..a + j];
    assert forall k :: 0 <= k < j - i ==> x[k] == bits[a + i + k] && y[k] == bits[a + i + k];
  }

  lemma RegisterSlice(nal: Vlc, i: nat, j: nat)
    requires nal.Valid() && i <= j <= nal.ValidBits()
    ensures nal.buffer[i..j] == nal.bits[nal.Pos() + i..nal.Pos() + j]
  {
    var content := nal.bits[nal.Pos()..8 * nal.data];
    assert nal.buffer[..|content|] == content;
    assert nal.buffer[i..j] == nal.buffer[..|content|][i..j];
    SliceOfSlice(nal.bits, nal.Pos(), 8 * nal.data, i, j);
  }
}
