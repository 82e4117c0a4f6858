/** Bits, bytes and Exp-Golomb codes: what the bit reader of lib/src/vl_rbsp.h is to compute. */
module BitSpec {
  import opened Common

  /** The outcome of reading; nothing is read when an assertion fails or a code is too long. */
  datatype Read<+T> = Stopped | Got(value: T) {
    predicate IsFailure() {
      Stopped?
    }

    function PropagateFailure<U>(): Read<U>
      requires Stopped?
    {
      Stopped
    }

    function Extract(): T
      requires Got?
    {
      value
    }
  }

  /** A number and the position after it. */
  datatype Field = Field(value: nat, next: nat)

  function Zeros(n: nat): (z: seq<bool>)
    ensures |z| == n && forall i :: 0 <= i < n ==> !z[i]
  {
    seq(n, _ => false)
  }

  /** The number written by bits, most significant first. */
  function ToNat(bits: seq<bool>): (n: nat)
    ensures n < Pow2(|bits|)
  {
    if bits == [] then 0 else 2 * ToNat(bits[..|bits| - 1]) + if bits[|bits| - 1] then 1 else 0
  }

  lemma ToNatLast(bits: seq<bool>)
    requires bits != []
    ensures ToNat(bits) == 2 * ToNat(bits[..|bits| - 1]) + if bits[|bits| - 1] then 1 else 0
    ensures Pow2(|bits|) == 2 * Pow2(|bits| - 1)
  {
  }

  function ToBits(n: nat, width: nat): (bits: seq<bool>)
    ensures |bits| == width
  {
    if width == 0 then [] else ToBits(n / 2, width - 1) + [n % 2 == 1]
  }

  lemma {:induction false} BitsOfNat(bits: seq<bool>)
    ensures ToBits(ToNat(bits), |bits|) == bits
  {
    if bits != [] {
      var rest := bits[..|bits| - 1];
      BitsOfNat(rest);
      assert ToNat(bits) / 2 == ToNat(rest);
      assert bits == rest + [bits[|bits| - 1]];
    }
  }

  lemma {:induction false} NatOfBits(n: nat, width: nat)
    requires n < Pow2(width)
    ensures ToNat(ToBits(n, width)) == n
  {
    if width > 0 {
      NatOfBits(n / 2, width - 1);
      assert ToBits(n, width)[..width - 1] == ToBits(n / 2, width - 1);
    }
  }

  lemma ByteWidth(b: byte)
    ensures b as int < Pow2(8)
  {
    assert Pow2(4) == 16;
    Pow2Add(4, 4);
  }

  function ByteBits(b: byte): (bits: seq<bool>)
    ensures |bits| == 8
  {
    ToBits(b, 8)
  }

  function BitsByte(bits: seq<bool>): (b: byte)
    requires |bits| == 8
    ensures ByteBits(b) == bits
  {
    BitsOfNat(bits);
    ByteWidth(0);
    assert ToNat(bits) < Pow2(8) == 0x100 by {
      assert Pow2(4) == 16;
      Pow2Add(4, 4);
    }
    ToNat(bits)
  }

  function Bits(bytes: seq<byte>): (bits: seq<bool>)
    ensures |bits| == 8 * |bytes|
  {
    if bytes == [] then [] else Bits(bytes[..|bytes| - 1]) + ByteBits(bytes[|bytes| - 1])
  }

  lemma {:induction false} BitsAt(bytes: seq<byte>, j: nat)
    requires j < |bytes|
    ensures Bits(bytes)[8 * j..8 * j + 8] == ByteBits(bytes[j])
  {
    var rest := bytes[..|bytes| - 1];
    if j < |rest| {
      BitsAt(rest, j);
      assert Bits(bytes)[8 * j..8 * j + 8] == Bits(rest)[8 * j..8 * j + 8];
    }
  }

  lemma {:induction false} BitOfNumber(n: nat, width: nat, k: nat)
    requires k < width
    ensures ToBits(n, width)[k] <==> BitSet(n, width - 1 - k)
  {
    hide BitSet;
    if k == width - 1 {
      LowestBit(n);
    } else {
      BitOfNumber(n / 2, width - 1, k);
      NextBit(n, width - 1 - k);
    }
  }

  /** The bits of bytes stand with the highest bit of each byte first. */
  lemma HighBitFirst(bytes: seq<byte>, i: nat)
    requires i < 8 * |bytes|
    ensures Bits(bytes)[i] <==> BitSet(bytes[i / 8], 7 - i % 8)
  {
    hide Bits, ToBits, BitSet;
    BitsAt(bytes, i / 8);
    BitOfNumber(bytes[i / 8], 8, i % 8);
    assert Bits(bytes)[8 * (i / 8)..8 * (i / 8) + 8][i % 8] == Bits(bytes)[i];
  }

  lemma {:induction false} BitsConcat(a: seq<byte>, b: seq<byte>)
    ensures Bits(a + b) == Bits(a) + Bits(b)
  {
    if b == [] {
      assert a + b == a;
    } else {
      BitsConcat(a, b[..|b| - 1]);
      assert (a + b)[..|a + b| - 1] == a + b[..|b| - 1];
    }
  }

  /** The bytes with given bits. */
  function FromBits(bits: seq<bool>): (bytes: seq<byte>)
    requires |bits| % 8 == 0
    ensures 8 * |bytes| == |bits| && Bits(bytes) == bits
  {
    if bits == [] then []
    else
      var init, last := bits[..|bits| - 8], bits[|bits| - 8..];
      assert bits == init + last;
      var bytes := FromBits(init) + [BitsByte(last)];
      assert bytes[..|bytes| - 1] == FromBits(init);
      bytes
  }

  lemma {:induction false} LowBits(n: nat, width: nat, k: nat)
    requires k <= width
    ensures ToBits(n, width)[width - k..] == ToBits(n, k)
  {
    if k > 0 {
      LowBits(n / 2, width - 1, k - 1);
    }
  }

  /** A number below 256 stands in the last byte. */
  lemma LastByte(bits: seq<bool>, b: byte)
    requires |bits| >= 8 && ToNat(bits) == b
    ensures bits[|bits| - 8..] == ByteBits(b)
  {
    BitsOfNat(bits);
    LowBits(b, |bits|, 8);
  }

  /** `n` bits as a number. */
  function U(bits: seq<bool>, pos: nat, n: nat): Read<Field> {
    if pos + n <= |bits| then Got(Field(ToNat(bits[pos..pos + n]), pos + n)) else Stopped
  }

  /** The position of the first set bit. */
  function FirstOne(bits: seq<bool>, pos: nat): (r: Read<nat>)
    ensures r.Got? ==> pos <= r.value < |bits| && bits[r.value] && forall i :: pos <= i < r.value ==> !bits[i]
    ensures r.Stopped? ==> forall i :: pos <= i < |bits| ==> !bits[i]
    decreases |bits| - pos
  {
    if pos >= |bits| then Stopped else if bits[pos] then Got(pos) else FirstOne(bits, pos + 1)
  }

  /** More leading zeros than this overflow the result. */
  const ZEROS_MAX := 30

  /** An unsigned Exp-Golomb code. */
  function Ue(bits: seq<bool>, pos: nat): Read<Field> {
    var one :- FirstOne(bits, pos);
    if one - pos > ZEROS_MAX then Stopped
    else
      var suffix :- U(bits, one + 1, one - pos);
      Got(Field(Pow2(one - pos) - 1 + suffix.value, suffix.next))
  }

  /** The code of a number with `z` leading zeros: section 9.2 of ITU-T H.265. */
  function UeCode(v: nat, z: nat): seq<bool>
    requires Pow2(z) <= v + 1 < 2 * Pow2(z)
  {
    Zeros(z) + [true] + ToBits(v + 1 - Pow2(z), z)
  }

  /** Reading inverts the code, wherever it stands. */
  lemma UeInvertsCode(before: seq<bool>, v: nat, z: nat, after: seq<bool>)
    requires Pow2(z) <= v + 1 < 2 * Pow2(z) && z <= ZEROS_MAX
    ensures Ue(before + UeCode(v, z) + after, |before|) == Got(Field(v, |before| + 2 * z + 1))
  {
    hide ToNat, ToBits, FirstOne, Pow2;
    var bits := before + UeCode(v, z) + after;
    var one := |before| + z;
    assert bits[one] && forall i :: |before| <= i < one ==> !bits[i];
    assert FirstOne(bits, |before|) == Got(one);
    assert bits[one + 1..one + 1 + z] == ToBits(v + 1 - Pow2(z), z);
    NatOfBits(v + 1 - Pow2(z), z);
  }

  /** How many zeros the code of a number has: every number has one. */
  function ZerosOf(v: nat): (z: nat)
    ensures Pow2(z) <= v + 1 < 2 * Pow2(z)
  {
    if v == 0 then 0 else ZerosOf((v + 1) / 2 - 1) + 1
  }

  /** Reading looks only at what it consumes. */
  lemma UeLocal(bits: seq<bool>, other: seq<bool>, pos: nat)
    requires |other| == |bits| && Ue(bits, pos).Got?
    requires var end := Ue(bits, pos).value.next; other[pos..end] == bits[pos..end]
    ensures Ue(other, pos) == Ue(bits, pos)
  {
    hide ToNat, FirstOne, Pow2;
    var one, end := FirstOne(bits, pos).value, Ue(bits, pos).value.next;
    forall i | pos <= i < end ensures other[i] == bits[i] {
      assert other[pos..end][i - pos] == bits[pos..end][i - pos];
    }
    assert FirstOne(other, pos) == Got(one);
    assert other[one + 1..end] == bits[one + 1..end];
  }
}

module BitReader {
  import opened Common
  import opened BitSpec

  /** A 64-bit word, most significant bit first. */
  type Word = w: seq<bool> | |w| == 64 witness Zeros(64)

  function Shl(w: Word, s: nat): Word
    requires s <= 64
  {
    w[s..] + Zeros(s)
  }

  function Or(a: Word, b: Word): Word {
    seq(64, i requires 0 <= i < 64 => a[i] || b[i])
  }

  /** A narrower number in a word. */
  function Widen(bits: seq<bool>): Word
    requires |bits| <= 64
  {
    Zeros(64 - |bits|) + bits
  }

  /** Or-ing a shifted number into a register appends it to the valid bits. */
  lemma OrAppends(content: seq<bool>, x: seq<bool>)
    requires |content| + |x| <= 64
    ensures Or(content + Zeros(64 - |content|), Shl(Widen(x), 64 - |content| - |x|))
         == content + x + Zeros(64 - |content| - |x|)
  {
  }

  lemma ShlDrops(content: seq<bool>, n: nat)
    requires n <= |content| <= 64
    ensures Shl(content + Zeros(64 - |content|), n) == content[n..] + Zeros(64 - (|content| - n))
  {
  }

  class Vlc {
    const input: array<byte>
    /** The address of the input, for alignment. */
    const address: nat
    var buffer: Word
    var invalidBits: int
    var data: nat
    var bytesLeft: nat

    /** The bits of the input as it was at the beginning. */
    ghost const bits: seq<bool>

    /** How far the reader has come. */
    ghost function Pos(): int
      reads this
    {
      8 * data - (32 - invalidBits)
    }

    /** The register holds the bits between the position and the data pointer, and nothing else. */
    ghost predicate Valid(): (valid: bool)
      reads this, input
      ensures valid ==> data <= input.Length && -32 <= invalidBits <= 32 && |bits| == 8 * input.Length && 0 <= Pos()
    {
      && data <= input.Length && -32 <= invalidBits <= 32
      && |bits| == 8 * input.Length && 0 <= Pos()
      && buffer == bits[Pos()..8 * data] + Zeros(32 + invalidBits)
      && Matches()
    }

    /** What lies ahead in the input is still what it was. */
    ghost predicate Matches()
      reads this, input
      requires data <= input.Length && |bits| == 8 * input.Length
    {
      forall j :: data <= j < input.Length ==> ByteBits(input[j]) == bits[8 * j..8 * j + 8]
    }

    constructor (input: array<byte>, address: nat)
      ensures this.input == input && this.address == address && bits == Bits(input[..])
      ensures Valid() && Pos() == 0 && (ValidBits() >= 32 || data == input.Length)
      ensures bytesLeft == input.Length
    {
      this.input, this.address := input, address;
      buffer, invalidBits, data, bytesLeft := Zeros(64), 32, 0, input.Length;
      bits := Bits(input[..]);
      new;
      forall j: nat | j < input.Length ensures ByteBits(input[j]) == bits[8 * j..8 * j + 8] {
        BitsAt(input[..], j);
      }
      assert bits[0..0] == [];
      AlignDataPtr();
      FillBits();
    }

    function ValidBits(): int
      reads this
    {
      32 - invalidBits
    }

    /** Counts the whole input again on top of what is left of it. */
    function BitsLeft(): int
      reads this
    {
      (input.Length - data + bytesLeft) * 8 + ValidBits()
    }

    /** `buffer |= byte << (24 + invalid_bits)` and on to the next byte. */
    method ReadByte()
      requires Valid() && data < input.Length && ValidBits() <= 56
      modifies this`buffer, this`invalidBits, this`data
      ensures Valid() && Pos() == old(Pos()) && data == old(data) + 1 && invalidBits == old(invalidBits) - 8
    {
      hide Or, Shl, Widen, ByteBits;
      var b := input[data];
      OrAppends(bits[Pos()..8 * data], ByteBits(b));
      assert bits[Pos()..8 * data] + ByteBits(b) == bits[Pos()..8 * (data + 1)];
      buffer := Or(buffer, Shl(Widen(ByteBits(b)), 24 + invalidBits));
      data, invalidBits := data + 1, invalidBits - 8;
    }

    /** A whole dword in network order. */
    method ReadDword()
      requires Valid() && data + 4 <= input.Length && invalidBits >= 0
      modifies this`buffer, this`invalidBits, this`data
      ensures Valid() && Pos() == old(Pos()) && data == old(data) + 4 && invalidBits == old(invalidBits) - 32
    {
      hide Or, Shl, Widen, ByteBits;
      var b0, b1, b2, b3 := input[data], input[data + 1], input[data + 2], input[data + 3];
      var value := ByteBits(b0) + ByteBits(b1) + ByteBits(b2) + ByteBits(b3);
      DwordBits(bits, 8 * data, ByteBits(b0), ByteBits(b1), ByteBits(b2), ByteBits(b3));
      OrAppends(bits[Pos()..8 * data], value);
      assert bits[Pos()..8 * data] + value == bits[Pos()..8 * (data + 4)];
      buffer := Or(buffer, Shl(Widen(value), invalidBits));
      data, invalidBits := data + 4, invalidBits - 32;
    }

    /** vl_vlc_align_data_ptr, called with an empty register. */
    method AlignDataPtr()
      requires Valid() && invalidBits == 32
      modifies this`buffer, this`invalidBits, this`data
      ensures Valid() && Pos() == old(Pos()) && (data == input.Length || (address + data) % 4 == 0)
    {
      var from := data;
      while data != input.Length && (address + data) % 4 != 0
        invariant Valid() && Pos() == old(Pos()) && from <= data && invalidBits == 32 - 8 * (data - from)
        invariant data == from || (0 < (address + from) % 4 && (address + from) % 4 + (data - from) <= 4)
        decreases input.Length - data
      {
        FewToAlign(address + from, data - from);
        ReadByte();
      }
    }

    /** vl_vlc_fillbits: at least 32 bits are valid afterwards, unless the input is used up. */
    method FillBits()
      requires Valid()
      modifies this`buffer, this`invalidBits, this`data
      ensures Valid() && Pos() == old(Pos()) && data >= old(data)
      ensures ValidBits() >= 32 || data == input.Length
      ensures old(ValidBits()) >= 32 ==> ValidBits() == old(ValidBits())
    {
      if invalidBits > 0 {
        if data == input.Length {
          return;
        }
        if input.Length - data >= 4 {
          ReadDword();
        } else {
          while data < input.Length
            invariant Valid() && Pos() == old(Pos()) && data >= old(data)
            invariant input.Length - data <= 3 && ValidBits() + 8 * (input.Length - data) <= 32 + 24
          {
            ReadByte();
          }
        }
      }
    }

    /** vl_vlc_peekbits of at most 32 bits: beyond the end of the input there are zeros. */
    function PeekBits(n: nat): (value: nat)
      requires n <= 32
      reads this
    {
      ToNat(buffer[..n])
    }

    /** vl_vlc_get_uimsbf; its assertion is the condition. */
    method GetUimsbf(n: nat) returns (r: Read<nat>)
      requires Valid() && n <= 32
      modifies this`buffer, this`invalidBits
      ensures Valid() && (r.Got? <==> n <= old(ValidBits()))
      ensures r.Got? ==> old(Pos()) + n <= |bits| && r.value == ToNat(bits[old(Pos())..old(Pos()) + n])
      ensures Pos() == old(Pos()) + if r.Got? then n else 0
    {
      if ValidBits() < n {
        return Stopped;
      }
      assert buffer[..n] == bits[Pos()..Pos() + n];
      r := Got(ToNat(buffer[..n]));
      var _ := EatBits(n);
    }

    /** vl_vlc_eatbits; its assertion is the condition. */
    method EatBits(n: nat) returns (ok: bool)
      requires Valid() && n <= 64
      modifies this`buffer, this`invalidBits
      ensures Valid() && (ok <==> n <= old(ValidBits()))
      ensures Pos() == old(Pos()) + if ok then n else 0
    {
      ok := ValidBits() >= n;
      if ok {
        ShlDrops(bits[Pos()..8 * data], n);
        assert bits[Pos()..8 * data][n..] == bits[Pos() + n..8 * data];
        buffer := Shl(buffer, n);
        invalidBits := invalidBits + n;
      }
    }
  }

  lemma DwordBits(bits: seq<bool>, at: nat, a: seq<bool>, b: seq<bool>, c: seq<bool>, d: seq<bool>)
    requires at + 32 <= |bits| && |a| == |b| == |c| == |d| == 8
    requires a == bits[at..at + 8] && b == bits[at + 8..at + 16]
    requires c == bits[at + 16..at + 24] && d == bits[at + 24..at + 32]
    ensures a + b + c + d == bits[at..at + 32]
  {
  }

  /** From an address that is not aligned, a dword boundary is at most three bytes away. */
  lemma FewToAlign(from: nat, n: nat)
    requires (from + n) % 4 != 0 && (n == 0 || (0 < from % 4 && from % 4 + n <= 4))
    ensures 0 < from % 4 && from % 4 + n < 4
  {
  }
}
