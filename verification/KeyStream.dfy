/**
 The counter-mode key stream of lib/src/gkcrypt.c: the 128-bit little-endian counter, the
 blocks made from it with an arbitrary block cipher, and decryption.
 */
module Bytes {
  import opened Common

  function Pow256(k: nat): (p: nat)
    ensures p > 0
  {
    if k == 0 then 1 else 0x100 * Pow256(k - 1)
  }

  /** The number written by little-endian digits. */
  function LE(b: seq<byte>): (n: nat) {
    if b == [] then 0 else b[0] as int + 0x100 * LE(b[1..])
  }

  /** The `k` lowest little-endian digits of a number. */
  function Digits(n: nat, k: nat): (b: seq<byte>)
    ensures |b| == k
  {
    if k == 0 then [] else [n % 0x100] + Digits(n / 0x100, k - 1)
  }

  /** Digit-wise addition with carry; the carry out of the last digit is lost. */
  function AddCarry(b: seq<byte>, v: int): (s: seq<byte>)
    requires v >= 0 || (b != [] && b[0] as int + v >= 0)
    ensures |s| == |b|
  {
    if b == [] then [] else [(b[0] as int + v) % 0x100] + AddCarry(b[1..], (b[0] as int + v) / 0x100)
  }

  lemma {:induction false} AddNoCarry(b: seq<byte>)
    ensures AddCarry(b, 0) == b
  {
    if b != [] {
      AddNoCarry(b[1..]);
    }
  }

  /** Adding with carry is addition modulo the range of the digits. */
  lemma {:induction false} AddCarryAdds(b: seq<byte>, v: int) returns (lost: nat)
    requires v >= 0 || (b != [] && b[0] as int + v >= 0)
    ensures LE(AddCarry(b, v)) + Pow256(|b|) * lost == LE(b) + v
  {
    if b == [] {
      lost := v;
    } else {
      var t := b[0] as int + v;
      lost := AddCarryAdds(b[1..], t / 0x100);
      assert AddCarry(b, v)[1..] == AddCarry(b[1..], t / 0x100);
      assert Pow256(|b|) * lost == 0x100 * (Pow256(|b| - 1) * lost);
    }
  }

  lemma {:induction false} LEBounded(b: seq<byte>)
    ensures LE(b) < Pow256(|b|)
  {
    if b != [] {
      LEBounded(b[1..]);
    }
  }

  lemma {:induction false} DigitsOfLE(b: seq<byte>)
    ensures Digits(LE(b), |b|) == b
  {
    if b != [] {
      DigitsOfLE(b[1..]);
      assert LE(b) % 0x100 == b[0] as int && LE(b) / 0x100 == LE(b[1..]);
    }
  }

  lemma AddCarryIsSum(b: seq<byte>, v: int)
    requires v >= 0 || (b != [] && b[0] as int + v >= 0)
    ensures LE(b) + v >= 0
    ensures AddCarry(b, v) == Digits((LE(b) + v) % Pow256(|b|), |b|)
  {
    var lost := AddCarryAdds(b, v);
    var s := AddCarry(b, v);
    LEBounded(s);
    DivModUnique(LE(b) + v, Pow256(|b|), lost, LE(s));
    DigitsOfLE(s);
  }

  function XorBits(a: nat, b: nat, k: nat): (x: nat)
    ensures x < Pow2(k)
  {
    if k == 0 then 0 else (a + b) % 2 + 2 * XorBits(a / 2, b / 2, k - 1)
  }

  lemma {:induction false} XorBitsTwice(a: nat, b: nat, k: nat)
    requires a < Pow2(k)
    ensures XorBits(XorBits(a, b, k), b, k) == a
  {
    if k > 0 {
      XorBitsTwice(a / 2, b / 2, k - 1);
      var low, high := (a + b) % 2, XorBits(a / 2, b / 2, k - 1);
      HalfAndParity(low, high, b);
      XorParity(a, b);
    }
  }

  lemma HalfAndParity(low: nat, high: nat, b: nat)
    requires low < 2
    ensures (low + 2 * high) / 2 == high && (low + 2 * high + b) % 2 == (low + b) % 2
  {
  }

  lemma XorParity(a: nat, b: nat)
    ensures ((a + b) % 2 + b) % 2 == a % 2
  {
  }

  function XorByte(a: byte, b: byte): (x: byte) {
    assert Pow2(8) == 0x100;
    XorBits(a, b, 8)
  }

  lemma XorByteTwice(a: byte, b: byte)
    ensures XorByte(XorByte(a, b), b) == a
  {
    assert Pow2(8) == 0x100;
    XorBitsTwice(a, b, 8);
  }

  lemma {:induction false} XorBitsDiffer(a: nat, b: nat, n: nat, k: nat)
    requires k < n
    ensures BitSet(XorBits(a, b, n), k) <==> BitSet(a, k) != BitSet(b, k)
  {
    hide XorBits, BitSet;
    XorBitsHalf(a, b, n);
    if k == 0 {
      LowestBit(a);
      LowestBit(b);
      LowestBit(XorBits(a, b, n));
    } else {
      XorBitsDiffer(a / 2, b / 2, n - 1, k - 1);
      NextBit(a, k);
      NextBit(b, k);
      NextBit(XorBits(a, b, n), k);
    }
  }

  lemma XorBitsHalf(a: nat, b: nat, n: nat)
    requires n > 0
    ensures XorBits(a, b, n) / 2 == XorBits(a / 2, b / 2, n - 1)
    ensures XorBits(a, b, n) % 2 == 1 <==> a % 2 != b % 2
  {
    HalfAndParity((a + b) % 2, XorBits(a / 2, b / 2, n - 1), 0);
    ParityOfSum(a, b);
  }

  lemma ParityOfSum(a: nat, b: nat)
    ensures (a + b) % 2 == 1 <==> a % 2 != b % 2
  {
  }

  /** A bit of the result is set exactly where the two bytes differ. */
  lemma XorByteDiffers(a: byte, b: byte, k: nat)
    requires k < 8
    ensures BitSet(XorByte(a, b), k) <==> BitSet(a, k) != BitSet(b, k)
  {
    XorBitsDiffer(a, b, 8, k);
  }

  lemma {:induction false} XorBitsZero(b: nat, k: nat)
    requires b < Pow2(k)
    ensures XorBits(0, b, k) == b
  {
    if k > 0 {
      XorBitsZero(b / 2, k - 1);
    }
  }

  lemma XorByteZero(b: byte)
    ensures XorByte(0, b) == b
  {
    assert Pow2(8) == 0x100;
    XorBitsZero(b, 8);
  }

  /** `a` with the first |a| bytes of `b` xored in. */
  function Xor(a: seq<byte>, b: seq<byte>): (x: seq<byte>)
    requires |a| <= |b|
    ensures |x| == |a|
  {
    seq<byte>(|a|, i requires 0 <= i < |a| => XorByte(a[i], b[i]))
  }
}

module KeyStreamSpec {
  import opened Common
  import opened Bytes

  /** A block cipher under a fixed key, as an arbitrary function on blocks. */
  type Cipher = seq<byte> -> seq<byte>

  ghost predicate IsCipher(enc: Cipher) {
    forall b :: |b| == BLOCK ==> |enc(b)| == BLOCK
  }

  /** Block `j` of the key stream: the encryption of iv + j modulo 2^128. */
  function Block(enc: Cipher, iv: seq<byte>, j: nat): seq<byte>
  {
    enc(Counter(iv, j))
  }

  /** Byte `p` of the key stream. */
  ghost function KS(enc: Cipher, iv: seq<byte>, p: nat): byte
    requires IsCipher(enc)
  {
    Block(enc, iv, p / BLOCK)[p % BLOCK]
  }

  /** Bytes `p`, ..., `p + n - 1` of the key stream. */
  ghost function Slice(enc: Cipher, iv: seq<byte>, p: nat, n: nat): (s: seq<byte>)
    requires IsCipher(enc)
    ensures |s| == n
  {
    seq<byte>(n, i requires 0 <= i < n => KS(enc, iv, p + i))
  }

  /** Encryption and decryption alike. */
  ghost function Decrypted(enc: Cipher, iv: seq<byte>, p: nat, text: seq<byte>): (t: seq<byte>)
    requires IsCipher(enc)
    ensures |t| == |text|
  {
    Xor(text, Slice(enc, iv, p, |text|))
  }

  /** Every bit of a decrypted text is the bit of the text, flipped where the key stream's bit is set. */
  lemma DecryptedBits(enc: Cipher, iv: seq<byte>, p: nat, text: seq<byte>, i: nat, k: nat)
    requires IsCipher(enc) && i < |text| && k < 8
    ensures BitSet(Decrypted(enc, iv, p, text)[i], k) <==> BitSet(text[i], k) != BitSet(KS(enc, iv, p + i), k)
  {
    hide KS, XorByte, BitSet;
    XorByteDiffers(text[i], KS(enc, iv, p + i), k);
  }

  /** Zeros encrypt to the key stream itself. */
  lemma DecryptedZeros(enc: Cipher, iv: seq<byte>, p: nat, n: nat)
    requires IsCipher(enc)
    ensures Decrypted(enc, iv, p, seq(n, _ => 0)) == Slice(enc, iv, p, n)
  {
    hide KS, XorByte;
    forall i | 0 <= i < n ensures Decrypted(enc, iv, p, seq(n, _ => 0))[i] == Slice(enc, iv, p, n)[i] {
      XorByteZero(KS(enc, iv, p + i));
    }
  }

  /** Decrypting what was encrypted at the same position gives the text back. */
  lemma DecryptTwice(enc: Cipher, iv: seq<byte>, p: nat, text: seq<byte>)
    requires IsCipher(enc)
    ensures Decrypted(enc, iv, p, Decrypted(enc, iv, p, text)) == text
  {
    hide KS, XorByte;
    forall i | 0 <= i < |text| ensures Decrypted(enc, iv, p, Decrypted(enc, iv, p, text))[i] == text[i] {
      XorByteTwice(text[i], KS(enc, iv, p + i));
    }
  }

  /** A text may be decrypted in consecutive pieces, whatever their alignment. */
  lemma DecryptInPieces(enc: Cipher, iv: seq<byte>, p: nat, a: seq<byte>, b: seq<byte>)
    requires IsCipher(enc)
    ensures Decrypted(enc, iv, p, a + b) == Decrypted(enc, iv, p, a) + Decrypted(enc, iv, p + |a|, b)
  {
    var whole, pieces := Decrypted(enc, iv, p, a + b), Decrypted(enc, iv, p, a) + Decrypted(enc, iv, p + |a|, b);
    forall i | 0 <= i < |a| + |b| ensures whole[i] == pieces[i] {
      if i >= |a| {
        assert p + i == p + |a| + (i - |a|);
      }
    }
  }

  function Counter(iv: seq<byte>, j: nat): (c: seq<byte>)
    ensures |c| == BLOCK
  {
    Digits((LE(iv) + j) % Pow256(BLOCK), BLOCK)
  }

  /**
   The counter's first byte is its lowest digit: counter 0 is the IV, and what does not fit
   into the first byte is carried into the second.
   */
  lemma CounterLowFirst(iv: seq<byte>, j: nat)
    requires |iv| == BLOCK
    ensures Counter(iv, 0) == iv
    ensures iv[0] as int + j < 0x100 ==> Counter(iv, j) == iv[0 := iv[0] as int + j]
    ensures 0x100 <= iv[0] as int + j < 0x200 && iv[1] < 0xff ==>
              Counter(iv, j) == iv[0 := iv[0] as int + j - 0x100][1 := iv[1] as int + 1]
  {
    hide LE, Digits, Pow256, AddCarry;
    AddCarryIsSum(iv, 0);
    AddNoCarry(iv);
    AddCarryIsSum(iv, j);
    if iv[0] as int + j < 0x100 {
      AddToFirst(iv, j);
    } else if iv[0] as int + j < 0x200 && iv[1] < 0xff {
      AddCarryFirst(iv, j);
      AddToFirst(iv[1..], 1);
      assert [iv[0] as int + j - 0x100] + iv[1..][0 := iv[1] as int + 1] ==
             iv[0 := iv[0] as int + j - 0x100][1 := iv[1] as int + 1];
    }
  }

  lemma AddToFirst(b: seq<byte>, v: nat)
    requires b != [] && b[0] as int + v < 0x100
    ensures AddCarry(b, v) == b[0 := b[0] as int + v]
  {
    hide AddCarry;
    AddCarryFirst(b, v);
    AddNoCarry(b[1..]);
  }

  lemma AddCarryFirst(b: seq<byte>, v: nat)
    requires b != []
    ensures AddCarry(b, v) == [(b[0] as int + v) % 0x100] + AddCarry(b[1..], (b[0] as int + v) / 0x100)
  {
  }

  /** Counter mode: the sixteen bytes at a block boundary are the encrypted counter. */
  lemma SliceOfBlock(enc: Cipher, iv: seq<byte>, j: nat)
    requires IsCipher(enc)
    ensures Slice(enc, iv, j * BLOCK, BLOCK) == enc(Counter(iv, j))
  {
    hide Counter;
    var s := Slice(enc, iv, j * BLOCK, BLOCK);
    forall i | 0 <= i < BLOCK ensures s[i] == Block(enc, iv, j)[i] {
      assert (j * BLOCK + i) / BLOCK == j && (j * BLOCK + i) % BLOCK == i;
      assert s[i] == KS(enc, iv, j * BLOCK + i);
    }
    BlockLength(enc, iv, j);
  }

  /** Blocks `j`, ..., `j + n - 1`, before (`!done`) or after (`done`) their encryption. */
  ghost function Blocks(enc: Cipher, iv: seq<byte>, done: bool, j: nat, n: nat): (s: seq<byte>)
    requires IsCipher(enc)
    ensures |s| == BLOCK * n
  {
    seq<byte>(BLOCK * n, i requires 0 <= i < BLOCK * n =>
      (if done then Block(enc, iv, j + i / BLOCK) else Counter(iv, j + i / BLOCK))[i % BLOCK])
  }

  lemma BlocksLast(enc: Cipher, iv: seq<byte>, done: bool, j: nat, n: nat)
    requires IsCipher(enc)
    ensures Blocks(enc, iv, done, j, n + 1) ==
            Blocks(enc, iv, done, j, n) + (if done then Block(enc, iv, j + n) else Counter(iv, j + n))
  {
    hide Block, Counter;
    assert |Block(enc, iv, j + n)| == BLOCK by { BlockLength(enc, iv, j + n); }
  }

  lemma BlocksFirst(enc: Cipher, iv: seq<byte>, done: bool, j: nat, n: nat)
    requires IsCipher(enc)
    ensures Blocks(enc, iv, done, j, n + 1) ==
            (if done then Block(enc, iv, j) else Counter(iv, j)) + Blocks(enc, iv, done, j + 1, n)
  {
    hide Block, Counter;
    assert |Block(enc, iv, j)| == BLOCK by { BlockLength(enc, iv, j); }
    var whole, rest := Blocks(enc, iv, done, j, n + 1), Blocks(enc, iv, done, j + 1, n);
    forall i | BLOCK <= i < BLOCK * (n + 1) ensures whole[i] == rest[i - BLOCK] {
      assert j + 1 + (i - BLOCK) / BLOCK == j + i / BLOCK && (i - BLOCK) % BLOCK == i % BLOCK;
    }
  }

  lemma BlockLength(enc: Cipher, iv: seq<byte>, j: nat)
    requires IsCipher(enc)
    ensures |Block(enc, iv, j)| == BLOCK
  {
  }

  /** An aligned slice is a sequence of whole blocks. */
  lemma SliceIsBlocks(enc: Cipher, iv: seq<byte>, p: nat, n: nat)
    requires IsCipher(enc) && p % BLOCK == 0
    ensures Slice(enc, iv, p, BLOCK * n) == Blocks(enc, iv, true, p / BLOCK, n)
  {
    hide Block;
    var s, b := Slice(enc, iv, p, BLOCK * n), Blocks(enc, iv, true, p / BLOCK, n);
    forall i | 0 <= i < BLOCK * n ensures s[i] == b[i] {
      assert (p + i) / BLOCK == p / BLOCK + i / BLOCK && (p + i) % BLOCK == i % BLOCK;
      assert s[i] == KS(enc, iv, p + i);
    }
  }

  lemma SliceOfSlice(enc: Cipher, iv: seq<byte>, p: nat, n: nat, from: nat, m: nat)
    requires IsCipher(enc) && from + m <= n
    ensures Slice(enc, iv, p, n)[from..from + m] == Slice(enc, iv, p + from, m)
  {
    var part, whole := Slice(enc, iv, p + from, m), Slice(enc, iv, p, n)[from..from + m];
    forall i | 0 <= i < m ensures whole[i] == part[i] {
      assert p + (from + i) == p + from + i;
    }
  }
}

module KeyStream {
  import opened Common
  import opened Bytes
  import opened KeyStreamSpec

  /** Lines 170-172: one digit, added in 64 bits. */
  method AddDigit(b: byte, carry: nat, ghost e: int) returns (digit: byte, next: nat)
    requires carry < U64 && b as int + e >= 0
    requires e == carry < U64 - 0x100 || e == carry - (if b as int + carry >= U64 then U64 else 0)
    ensures digit as int == (b as int + e) % 0x100 && next == (b as int + e) / 0x100
    ensures next < 0x100_0000_0000_0000
  {
    var r := (b as int + carry) % U64;
    digit, next := r % 0x100, r / 0x100;
  }

  /** The loop of counter_add, lines 168-175: it ends after the last digit or when nothing is left to carry. */
  method AddDigits(out: array<byte>, off: nat, base: seq<byte>, v: nat, ghost w: int) returns (i: nat, carry: nat)
    requires |base| == BLOCK && off + BLOCK <= out.Length && v < U64
    requires w == v - (if base[0] as int + v >= U64 then U64 else 0)
    modifies out
    ensures i <= BLOCK && (i < BLOCK ==> carry == 0)
    ensures out[..off] == old(out[..off]) && out[off + BLOCK..] == old(out[off + BLOCK..])
    ensures out[off..off + i] + AddCarry(base[i..], carry) == AddCarry(base, w)
  {
    hide AddCarry;
    i, carry := 0, v;
    var more := true;
    ghost var e, done: seq<byte> := w, [];
    ghost var sum := AddCarry(base, w);
    assert base[0..] == base && [] + sum == sum;
    while more
      invariant 0 <= i <= BLOCK && (more ==> i < BLOCK) && (i == 0 ==> more && carry == v && e == w)
      invariant i > 0 ==> e == carry < 0x100_0000_0000_0000 && (more <==> i < BLOCK && carry != 0)
      invariant e >= 0 || (i < BLOCK && base[i] as int + e >= 0)
      invariant out[..off] == old(out[..off]) && out[off + BLOCK..] == old(out[off + BLOCK..])
      invariant out[off..off + i] == done && done + AddCarry(base[i..], e) == sum
      decreases BLOCK - i, more
    {
      AddCarryStep(base[i..], e);
      assert base[i..][1..] == base[i + 1..];
      var digit;
      digit, carry := AddDigit(base[i], carry, e);
      ConcatLater(done, [digit], AddCarry(base[i + 1..], carry));
      out[off + i] := digit;
      assert out[off..off + i + 1] == done + [digit];
      done, e := done + [digit], carry;
      i := i + 1;
      more := i < BLOCK && carry != 0;
    }
  }

  /**
   counter_add writes the counter at `off`. The first digit is added to `v` in 64 bits, so
   the sum is short by 2^64 exactly when that addition wraps; otherwise it is the sum of
   the counter and `v` modulo 2^128.
   */
  method CounterAdd(out: array<byte>, off: nat, base: seq<byte>, v: nat)
    requires |base| == BLOCK && off + BLOCK <= out.Length && v < U64
    modifies out
    ensures out[..off] == old(out[..off]) && out[off + BLOCK..] == old(out[off + BLOCK..])
    ensures var wrapped := if base[0] as int + v >= U64 then U64 else 0;
            && LE(base) + (v - wrapped) >= 0
            && out[off..off + BLOCK] == Digits((LE(base) + (v - wrapped)) % Pow256(BLOCK), BLOCK)
  {
    hide Digits, LE, Pow256, AddCarry;
    ghost var w := v - (if base[0] as int + v >= U64 then U64 else 0);
    var i, carry := AddDigits(out, off, base, v, w);
    ghost var done := out[off..off + i];
    forall k | i <= k < BLOCK {
      out[off + k] := base[k];
    }
    if i < BLOCK {
      AddNoCarry(base[i..]);
    } else {
      AddCarryStep([], carry);
    }
    assert out[off..off + BLOCK] == done + base[i..];
    AddCarryIsSum(base, w);
  }

  lemma AddCarryStep(b: seq<byte>, e: int)
    requires e >= 0 || (b != [] && b[0] as int + e >= 0)
    ensures AddCarry(b, e) ==
            if b == [] then [] else [(b[0] as int + e) % 0x100] + AddCarry(b[1..], (b[0] as int + e) / 0x100)
  {
  }

  /** Whether the counter is right: exactly when the first addition does not wrap in 64 bits. */
  lemma CounterExact(base: seq<byte>, v: nat)
    requires |base| == BLOCK && v < U64
    ensures var wrapped := if base[0] as int + v >= U64 then U64 else 0;
            && LE(base) + (v - wrapped) >= 0
            && var right := Digits((LE(base) + v) % Pow256(BLOCK), BLOCK);
               Digits((LE(base) + (v - wrapped)) % Pow256(BLOCK), BLOCK) == right <==> base[0] as int + v < U64
  {
    hide Digits, LE, AddCarry, Pow256;
    if base[0] as int + v >= U64 {
      AddCarryIsSum(base, v - U64);
      var a, b := LE(base) + (v - U64), LE(base) + v;
      assert Pow256(BLOCK) == U64 * U64 by { Pow256Of16(); }
      ModInjective(a, b, Pow256(BLOCK));
      DigitsInjective(a % Pow256(BLOCK), b % Pow256(BLOCK), BLOCK);
    }
  }

  lemma Pow256Of16()
    ensures Pow256(16) == U64 * U64
  {
    assert Pow256(8) == U64;
    assert Pow256(12) == 0x1_0000_0000 * U64;
  }

  lemma {:induction false} DigitsInjective(a: nat, b: nat, k: nat)
    requires a < Pow256(k) && b < Pow256(k)
    ensures Digits(a, k) == Digits(b, k) ==> a == b
  {
    if k > 0 && Digits(a, k) == Digits(b, k) {
      assert Digits(a, k)[1..] == Digits(a / 0x100, k - 1) && Digits(b, k)[1..] == Digits(b / 0x100, k - 1);
      DigitsInjective(a / 0x100, b / 0x100, k - 1);
    }
  }

  /** A write between `a` and `b` leaves every other part of [lo, hi) and the surroundings alone. */
  lemma Unchanged(before: seq<byte>, after: seq<byte>, lo: nat, a: nat, b: nat, hi: nat)
    requires |before| == |after| && lo <= a <= b <= hi <= |before|
    requires after[..a] == before[..a] && after[b..] == before[b..]
    ensures after[..lo] == before[..lo] && after[hi..] == before[hi..]
    ensures after[lo..a] == before[lo..a] && after[b..hi] == before[b..hi]
    ensures after[lo..b] == after[lo..a] + after[a..b]
    ensures before[a..hi] == before[a..b] + before[b..hi]
  {
    assert after[..lo] == after[..a][..lo] && before[..lo] == before[..a][..lo];
    assert after[lo..a] == after[..a][lo..] && before[lo..a] == before[..a][lo..];
    assert after[b..hi] == after[b..][..hi - b] && before[b..hi] == before[b..][..hi - b];
    assert after[hi..] == after[b..][hi - b..] && before[hi..] == before[b..][hi - b..];
  }

  /** Encrypts the block at `at` in place. */
  method EncryptBlock(enc: Cipher, buf: array<byte>, at: nat)
    requires IsCipher(enc) && at + BLOCK <= buf.Length
    modifies buf
    ensures buf[at..at + BLOCK] == enc(old(buf[at..at + BLOCK]))
    ensures buf[..at] == old(buf[..at]) && buf[at + BLOCK..] == old(buf[at + BLOCK..])
  {
    var c := enc(buf[at..at + BLOCK]);
    forall k | 0 <= k < BLOCK {
      buf[at + k] := c[k];
    }
  }

  lemma CounterNoWrap(iv: seq<byte>, v: nat)
    requires |iv| == BLOCK && v + 0x100 <= U64
    ensures iv[0] as int + v < U64
    ensures Digits((LE(iv) + v) % Pow256(BLOCK), BLOCK) == Counter(iv, v)
  {
  }

  /** Lines 252-253: the counters. */
  method WriteCounters(enc: Cipher, iv: seq<byte>, start: nat, buf: array<byte>, off: nat, n: nat)
    requires IsCipher(enc) && |iv| == BLOCK
    requires off + BLOCK * n <= buf.Length && start + n + 0x100 <= U64
    modifies buf
    ensures buf[off..off + BLOCK * n] == Blocks(enc, iv, false, start, n)
    ensures buf[..off] == old(buf[..off]) && buf[off + BLOCK * n..] == old(buf[off + BLOCK * n..])
  {
    hide Block, Counter, Digits, LE, Pow256, Blocks;
    BlocksNone(enc, iv, false, start);
    var j := 0;
    while j < n
      invariant 0 <= j <= n
      invariant buf[..off] == old(buf[..off]) && buf[off + BLOCK * n..] == old(buf[off + BLOCK * n..])
      invariant buf[off..off + BLOCK * j] == Blocks(enc, iv, false, start, j)
    {
      ghost var before := buf[..];
      CounterAdd(buf, off + BLOCK * j, iv, start + j);
      CounterNoWrap(iv, start + j);
      BlocksLast(enc, iv, false, start, j);
      Unchanged(before, buf[..], off, off + BLOCK * j, off + BLOCK * (j + 1), off + BLOCK * n);
      j := j + 1;
    }
  }

  /** Encrypts block `j` when the blocks before it are done. */
  method EncryptNext(enc: Cipher, iv: seq<byte>, start: nat, buf: array<byte>, off: nat, j: nat, n: nat)
    requires IsCipher(enc) && j < n && off + BLOCK * n <= buf.Length
    requires buf[off..off + BLOCK * j] == Blocks(enc, iv, true, start, j)
    requires buf[off + BLOCK * j..off + BLOCK * n] == Blocks(enc, iv, false, start + j, n - j)
    modifies buf
    ensures buf[..off] == old(buf[..off]) && buf[off + BLOCK * n..] == old(buf[off + BLOCK * n..])
    ensures buf[off..off + BLOCK * (j + 1)] == Blocks(enc, iv, true, start, j + 1)
    ensures buf[off + BLOCK * (j + 1)..off + BLOCK * n] == Blocks(enc, iv, false, start + j + 1, n - j - 1)
  {
    hide Block, Counter, Blocks;
    ghost var before := buf[..];
    var at := off + BLOCK * j;
    BlocksFirst(enc, iv, false, start + j, n - j - 1);
    assert buf[at..at + BLOCK] == buf[at..off + BLOCK * n][..BLOCK] == Counter(iv, start + j);
    EncryptBlock(enc, buf, at);
    Unchanged(before, buf[..], off, at, at + BLOCK, off + BLOCK * n);
    EncryptedCounter(enc, iv, start + j);
    BlocksLast(enc, iv, true, start, j);
  }

  /** Lines 256-264: every counter is encrypted in place. */
  method EncryptAll(enc: Cipher, iv: seq<byte>, start: nat, buf: array<byte>, off: nat, n: nat)
    requires IsCipher(enc) && off + BLOCK * n <= buf.Length
    requires buf[off..off + BLOCK * n] == Blocks(enc, iv, false, start, n)
    modifies buf
    ensures buf[off..off + BLOCK * n] == Blocks(enc, iv, true, start, n)
    ensures buf[..off] == old(buf[..off]) && buf[off + BLOCK * n..] == old(buf[off + BLOCK * n..])
  {
    hide Blocks;
    BlocksNone(enc, iv, true, start);
    var j := 0;
    while j < n
      invariant 0 <= j <= n
      invariant buf[..off] == old(buf[..off]) && buf[off + BLOCK * n..] == old(buf[off + BLOCK * n..])
      invariant buf[off..off + BLOCK * j] == Blocks(enc, iv, true, start, j)
      invariant buf[off + BLOCK * j..off + BLOCK * n] == Blocks(enc, iv, false, start + j, n - j)
    {
      EncryptNext(enc, iv, start, buf, off, j, n);
      j := j + 1;
    }
  }

  lemma EncryptedCounter(enc: Cipher, iv: seq<byte>, j: nat)
    ensures Block(enc, iv, j) == enc(Counter(iv, j))
  {
  }

  lemma BlocksNone(enc: Cipher, iv: seq<byte>, done: bool, j: nat)
    requires IsCipher(enc)
    ensures Blocks(enc, iv, done, j, 0) == []
  {
  }

  /**
   chiaki_gkcrypt_gen_key_stream for an aligned position and size: first the counters are
   written, then every block is encrypted in place.
   */
  method GenKeyStream(enc: Cipher, iv: seq<byte>, keyPos: nat, buf: array<byte>, off: nat, size: nat)
    requires IsCipher(enc) && |iv| == BLOCK
    requires keyPos % BLOCK == 0 && size % BLOCK == 0 && off + size <= buf.Length
    requires keyPos / BLOCK + size / BLOCK + 0x100 <= U64
    modifies buf
    ensures buf[off..off + size] == Slice(enc, iv, keyPos, size)
    ensures buf[..off] == old(buf[..off]) && buf[off + size..] == old(buf[off + size..])
  {
    var counterOffset, n := keyPos / BLOCK, size / BLOCK;
    WriteCounters(enc, iv, counterOffset, buf, off, n);
    EncryptAll(enc, iv, counterOffset, buf, off, n);
    SliceIsBlocks(enc, iv, keyPos, n);
  }
}
