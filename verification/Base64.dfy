/** Base64 (lib/src/base64.c). Characters are bytes, 0 to 255. */
module Base64Spec {
  import opened Common
  import opened BitSpec

  const WHITESPACE := 64
  const EQUALS := 65
  const INVALID := 66
  const PAD_CHAR: byte := '=' as int

  /** The alphabet of section 4 of RFC 4648. */
  function Symbol(v: nat): (c: byte)
    requires v < 64
  {
    if v < 26 then 'A' as int + v
    else if v < 52 then 'a' as int + (v - 26)
    else if v < 62 then '0' as int + (v - 52)
    else if v == 62 then '+' as int
    else '/' as int
  }

  /** The decoder's table; of all whitespace only the newline is skipped. */
  function Table(c: byte): (v: nat)
    ensures v <= INVALID
  {
    if c == '\n' as int then WHITESPACE
    else if c == '=' as int then EQUALS
    else if c == '+' as int then 62
    else if c == '/' as int then 63
    else if '0' as int <= c <= '9' as int then 52 + c - '0' as int
    else if 'A' as int <= c <= 'Z' as int then c - 'A' as int
    else if 'a' as int <= c <= 'z' as int then 26 + c - 'a' as int
    else INVALID
  }

  lemma TableOfSymbol(v: nat)
    requires v < 64
    ensures Table(Symbol(v)) == v
  {
  }

  /** The decoder knows no other characters, and of the others skips only newlines and stops only at padding. */
  lemma SymbolOfTable(c: byte)
    ensures Table(c) < 64 ==> Symbol(Table(c)) == c
    ensures Table(c) == WHITESPACE <==> c == 10
    ensures Table(c) == EQUALS <==> c == '=' as int
  {
  }

  const UPPER := "ABCDEFGHIJKLMNOPQRSTUVWXYZ"
  const LOWER := "abcdefghijklmnopqrstuvwxyz"
  const DIGITS := "0123456789"

  /** The character of every value, in the order of the alphabet. */
  lemma SymbolIsCharacter(v: nat)
    requires v < 64
    ensures |UPPER| == |LOWER| == 26 && |DIGITS| == 10
    ensures Symbol(v) as char ==
            if v < 26 then UPPER[v] else if v < 52 then LOWER[v - 26] else if v < 62 then DIGITS[v - 52]
            else if v == 62 then '+' else '/'
  {
    if v < 26 {
      Upper(v);
    } else if v < 52 {
      Lower(v - 26);
    } else if v < 62 {
      Digit(v - 52);
    }
  }

  lemma Upper(k: nat)
    requires k < 26
    ensures UPPER[k] as int == 'A' as int + k
  {
  }

  lemma Lower(k: nat)
    requires k < 26
    ensures LOWER[k] as int == 'a' as int + k
  {
  }

  lemma Digit(k: nat)
    requires k < 10
    ensures DIGITS[k] as int == '0' as int + k
  {
  }

  predicate Sixes(values: seq<nat>) {
    forall i :: 0 <= i < |values| ==> values[i] < 64
  }

  /** The 6-bit numbers of one, two or three bytes. */
  function GroupValues(g: seq<byte>): (values: seq<nat>)
    requires 0 < |g| <= 3
    ensures |values| == |g| + 1 && Sixes(values)
  {
    var n := Number(g);
    [n / 0x40000, n / 0x1000 % 64, n / 0x40 % 64, n % 64][..|g| + 1]
  }

  /** The 24-bit number of a group; missing bytes are zero. */
  function Number(g: seq<byte>): (n: nat)
    requires 0 < |g| <= 3
    ensures n < 0x100_0000
  {
    g[0] as int * 0x1_0000 + (if |g| > 1 then g[1] as int * 0x100 else 0) + (if |g| > 2 then g[2] as int else 0)
  }

  /** Where the last group of `unit` elements begins. */
  function LastGroup(n: nat, unit: nat): (k: nat)
    requires n > 0 && unit in {3, 4}
    ensures k < n <= k + unit && k % unit == 0
  {
    (n - 1) / unit * unit
  }

  function Values(x: seq<byte>): (values: seq<nat>)
    ensures Sixes(values)
  {
    if x == [] then []
    else
      var k := LastGroup(|x|, 3);
      Values(x[..k]) + GroupValues(x[k..])
  }

  function Symbols(values: seq<nat>): (chars: seq<byte>)
    requires Sixes(values)
    ensures |chars| == |values|
  {
    seq<byte>(|values|, i requires 0 <= i < |values| => Symbol(values[i]))
  }

  function Pads(n: nat): (pads: seq<byte>)
    ensures |pads| == (3 - n % 3) % 3
  {
    seq<byte>((3 - n % 3) % 3, _ => PAD_CHAR)
  }

  function Encode(x: seq<byte>): seq<byte> {
    Symbols(Values(x)) + Pads(|x|)
  }

  /** The test vectors of section 10 of RFC 4648 for one, two and three bytes. */
  lemma VectorF()
    ensures Encode(['f' as int]) == ['Z' as int, 'g' as int, '=' as int, '=' as int]
  {
    OneGroup(['f' as int]);
  }

  lemma VectorFo()
    ensures Encode(['f' as int, 'o' as int]) == ['Z' as int, 'm' as int, '8' as int, '=' as int]
  {
    OneGroup(['f' as int, 'o' as int]);
  }

  lemma VectorFoo()
    ensures Encode(['f' as int, 'o' as int, 'o' as int]) == ['Z' as int, 'm' as int, '9' as int, 'v' as int]
  {
    OneGroup(['f' as int, 'o' as int, 'o' as int]);
    assert Number(['f' as int, 'o' as int, 'o' as int]) == 0x66_6f6f;
    assert GroupValues(['f' as int, 'o' as int, 'o' as int]) == [25, 38, 61, 47];
    hide Number, GroupValues, Values;
  }

  lemma OneGroup(g: seq<byte>)
    requires 0 < |g| <= 3
    ensures Values(g) == GroupValues(g)
  {
    assert LastGroup(|g|, 3) == 0 && g[..0] == [] && g[0..] == g;
  }

  /** Four characters for every three bytes or part of them. */
  lemma {:induction false} EncodedLength(x: seq<byte>)
    ensures |Values(x)| == |x| + (|x| + 2) / 3
    ensures |Encode(x)| == (|x| + 2) / 3 * 4
  {
    hide LastGroup, GroupValues;
    if x != [] {
      var k := LastGroup(|x|, 3);
      EncodedLength(x[..k]);
      GroupsOf(|x|, k);
    }
    PadsOf(|x|);
  }

  lemma GroupsOf(n: nat, k: nat)
    requires k < n <= k + 3 && k % 3 == 0
    ensures (n + 2) / 3 == (k + 2) / 3 + 1
  {
    var q := k / 3;
    DivModUnique(k + 2, 3, q, 2);
    DivModUnique(n + 2, 3, q + 1, n - k - 1);
  }

  lemma PadsOf(n: nat)
    ensures n + (n + 2) / 3 + (3 - n % 3) % 3 == (n + 2) / 3 * 4
  {
    var q, r := n / 3, n % 3;
    DivModUnique(n + 2, 3, if r == 0 then q else q + 1, if r == 0 then 2 else r - 1);
    assert (3 - r) % 3 == if r == 0 then 0 else 3 - r;
  }

  /** The 6-bit numbers of a string of bits. */
  function Sextets(bits: seq<bool>): (values: seq<nat>)
    requires |bits| % 6 == 0
  {
    if bits == [] then [] else Sextets(bits[..|bits| - 6]) + [ToNat(bits[|bits| - 6..])]
  }

  /** The bits of the input, with zeros up to a multiple of six. */
  function InputBits(x: seq<byte>): (bits: seq<bool>)
    ensures |bits| % 6 == 0
  {
    Bits(x) + Zeros(|x| % 3 * 4 % 6)
  }

  lemma SextetsLast(bits: seq<bool>)
    requires |bits| % 6 == 0 && bits != []
    ensures |bits| >= 6 && (|bits| - 6) % 6 == 0
    ensures Sextets(bits) == Sextets(bits[..|bits| - 6]) + [ToNat(bits[|bits| - 6..])]
  {
    hide ToNat;
    SixLess(|bits|);
  }

  lemma SixLess(n: nat)
    requires n % 6 == 0 && n > 0
    ensures n >= 6 && (n - 6) % 6 == 0
  {
  }

  lemma {:induction false} SextetsConcat(a: seq<bool>, b: seq<bool>)
    requires |a| % 6 == 0 && |b| % 6 == 0
    ensures |a + b| % 6 == 0 && Sextets(a + b) == Sextets(a) + Sextets(b)
  {
    var s := a + b;
    assert |s| % 6 == 0 by { SumOfMultiples(|a|, |b|, 6); assert |s| == |a| + |b|; }
    if b == [] {
      assert a + b == a;
      NoSextets();
    } else {
      hide Sextets;
      SextetsLast(b);
      SextetsLast(s);
      var c := b[..|b| - 6];
      SextetsConcat(a, c);
      assert s[..|s| - 6] == a + c && s[|s| - 6..] == b[|b| - 6..];
      ConcatLater(Sextets(a), Sextets(c), [ToNat(b[|b| - 6..])]);
    }
  }

  lemma {:induction false} NatOfConcat(a: seq<bool>, b: seq<bool>)
    ensures ToNat(a + b) == ToNat(a) * Pow2(|b|) + ToNat(b)
  {
    if b == [] {
      assert a + b == a;
    } else {
      hide ToNat, Pow2;
      var c := b[..|b| - 1];
      NatOfConcat(a, c);
      assert (a + b)[..|a + b| - 1] == a + c;
      ToNatLast(a + b);
      ToNatLast(b);
      DoubleProduct(ToNat(a), Pow2(|c|));
    }
  }

  lemma DoubleProduct(x: nat, y: nat)
    ensures x * (2 * y) == 2 * (x * y)
  {
  }

  /** Dividing by powers of 64 one after the other, or at once. */
  lemma DigitsOf(n: nat, m: nat, size: nat)
    requires 0 < size <= 3 && n < 0x100_0000
    requires m * (if size == 1 then 0x1000 else if size == 2 then 0x40 else 1) == n
    ensures size == 1 ==> n / 0x40000 == m / 64 && n / 0x1000 % 64 == m % 64
    ensures size == 2 ==> n / 0x40000 == m / 64 / 64 && n / 0x1000 % 64 == m / 64 % 64 && n / 0x40 % 64 == m % 64
    ensures size == 3 ==> n / 0x40000 == m / 64 / 64 / 64 && n / 0x1000 % 64 == m / 64 / 64 % 64
    ensures size == 3 ==> n / 0x40 % 64 == m / 64 % 64
  {
  }

  /** The numbers of a group are those of its bits: section 4 of RFC 4648. */
  lemma GroupIsSextets(g: seq<byte>)
    requires 0 < |g| <= 3
    ensures GroupValues(g) == Sextets(InputBits(g))
  {
    hide Bits, ToNat, Number, InputBits, Sextets;
    var bits := InputBits(g);
    GroupNumber(g);
    DigitsOf(Number(g), ToNat(bits), |g|);
    if |g| == 1 {
      TwoSextets(bits);
    } else if |g| == 2 {
      ThreeSextets(bits);
    } else {
      FourSextets(bits);
    }
  }

  lemma SmallPowers()
    ensures Pow2(0) == 1 && Pow2(2) == 4 && Pow2(4) == 16 && Pow2(6) == 64 && Pow2(8) == 0x100
  {
    assert Pow2(4) == 16;
    Pow2Add(4, 4);
  }

  /** The bits of a group are its number without the missing low digits. */
  lemma GroupNumber(g: seq<byte>)
    requires 0 < |g| <= 3
    ensures |InputBits(g)| == 6 * (|g| + 1)
    ensures ToNat(InputBits(g)) * (if |g| == 1 then 0x1000 else if |g| == 2 then 0x40 else 1) == Number(g)
  {
    hide Bits, ToNat, Pow2, Number;
    SmallPowers();
    BytesNumber(g);
    var missing := |g| % 3 * 4 % 6;
    assert missing == if |g| == 1 then 4 else if |g| == 2 then 2 else 0;
    NatOfConcat(Bits(g), Zeros(missing));
    ZerosNumber(missing);
  }

  lemma {:induction false} ZerosNumber(n: nat)
    ensures ToNat(Zeros(n)) == 0
  {
    if n > 0 {
      assert Zeros(n)[..n - 1] == Zeros(n - 1);
      ZerosNumber(n - 1);
    }
  }

  lemma BytesNumber(g: seq<byte>)
    requires 0 < |g| <= 3
    ensures ToNat(Bits(g)) * (if |g| == 1 then 0x1_0000 else if |g| == 2 then 0x100 else 1) == Number(g)
  {
    hide Bits, ToNat;
    assert g[..|g|] == g;
    assert g[..1] == [] + [g[0]];
    ByteNumber([], g[0]);
    NoBits();
    if |g| > 1 {
      ByteNumber(g[..1], g[1]);
      assert g[..2] == g[..1] + [g[1]];
    }
    if |g| > 2 {
      ByteNumber(g[..2], g[2]);
      assert g == g[..2] + [g[2]];
    }
  }

  lemma NoBits()
    ensures Bits([]) == [] && ToNat([]) == 0
  {
  }

  lemma ByteNumber(before: seq<byte>, b: byte)
    ensures ToNat(Bits(before + [b])) == ToNat(Bits(before)) * 0x100 + b
  {
    hide ToNat, Pow2;
    assert (before + [b])[..|before|] == before;
    NatOfConcat(Bits(before), ByteBits(b));
    SmallPowers();
    NatOfBits(b, 8);
  }

  lemma OneSextet(bits: seq<bool>)
    requires |bits| == 6
    ensures Sextets(bits) == [ToNat(bits)] && ToNat(bits) < 64
  {
    hide ToNat, Pow2;
    assert bits[0..] == bits && bits[..0] == [];
    SmallPowers();
  }

  /** Splitting six bits off the end is division by 64. */
  lemma LastSextet(bits: seq<bool>)
    requires |bits| % 6 == 0 && |bits| > 0
    ensures var init := bits[..|bits| - 6];
            Sextets(bits) == Sextets(init) + [ToNat(bits) % 64] && ToNat(init) == ToNat(bits) / 64
  {
    hide ToNat, Pow2;
    var init, last := bits[..|bits| - 6], bits[|bits| - 6..];
    assert bits == init + last;
    NatOfConcat(init, last);
    OneSextet(last);
    SmallPowers();
    DivModUnique(ToNat(bits), 64, ToNat(init), ToNat(last));
  }

  lemma TwoSextets(bits: seq<bool>)
    requires |bits| == 12
    ensures var n := ToNat(bits); Sextets(bits) == [n / 64, n % 64] && n < 0x1000
  {
    LastSextet(bits);
    OneSextet(bits[..6]);
  }

  lemma ThreeSextets(bits: seq<bool>)
    requires |bits| == 18
    ensures var n := ToNat(bits); Sextets(bits) == [n / 64 / 64, n / 64 % 64, n % 64] && n < 0x4_0000
  {
    LastSextet(bits);
    TwoSextets(bits[..12]);
  }

  lemma FourSextets(bits: seq<bool>)
    requires |bits| == 24
    ensures var n := ToNat(bits); Sextets(bits) == [n / 64 / 64 / 64, n / 64 / 64 % 64, n / 64 % 64, n % 64]
  {
    LastSextet(bits);
    ThreeSextets(bits[..18]);
  }

  /**
   The encoding is that of section 4 of RFC 4648: the input's bits in groups of six, each
   written as a symbol, and padding up to a multiple of four characters.
   */
  lemma {:induction false} EncodesBits(x: seq<byte>)
    ensures Values(x) == Sextets(InputBits(x))
  {
    hide GroupValues, Sextets;
    if x == [] {
      assert InputBits(x) == [];
      NoSextets();
    } else {
      var k := LastGroup(|x|, 3);
      EncodesBits(x[..k]);
      GroupIsSextets(x[k..]);
      BitsConcat(x[..k], x[k..]);
      assert x == x[..k] + x[k..];
      assert InputBits(x[..k]) == Bits(x[..k]);
      SameResidues(|x|, k);
      assert InputBits(x) == InputBits(x[..k]) + InputBits(x[k..]);
      SextetsConcat(InputBits(x[..k]), InputBits(x[k..]));
    }
  }

  lemma NoSextets()
    ensures Sextets([]) == []
  {
  }

  lemma SameResidues(n: nat, k: nat)
    requires k <= n && k % 3 == 0
    ensures n % 3 == (n - k) % 3
  {
  }

  /** The bytes of one to four 6-bit numbers; one number is too few for a byte. */
  function GroupBytes(v: seq<nat>): (bytes: seq<byte>)
    requires 0 < |v| <= 4 && Sixes(v)
    ensures |bytes| == |v| - 1
  {
    if |v| == 1 then []
    else if |v| == 2 then [(v[0] * 64 + v[1]) / 0x10 % 0x100]
    else if |v| == 3 then
      var n := (v[0] * 64 + v[1]) * 64 + v[2];
      [n / 0x400 % 0x100, n / 4 % 0x100]
    else
      var n := ((v[0] * 64 + v[1]) * 64 + v[2]) * 64 + v[3];
      [n / 0x1_0000 % 0x100, n / 0x100 % 0x100, n % 0x100]
  }

  lemma UnpackedLength(n: nat, k: nat)
    requires k < n <= k + 4 && k % 4 == 0
    ensures k * 3 / 4 + (n - k - 1) == n * 3 / 4
  {
    var q := k / 4;
    assert k == 4 * q;
  }

  function Unpack(v: seq<nat>): (bytes: seq<byte>)
    requires Sixes(v)
    ensures |bytes| == |v| * 3 / 4
  {
    if v == [] then []
    else
      var k := LastGroup(|v|, 4);
      UnpackedLength(|v|, k);
      Unpack(v[..k]) + GroupBytes(v[k..])
  }

  /** The numbers up to the first pad character; none if something else is met before. */
  function Scan(chars: seq<byte>): (values: Option<seq<nat>>)
    ensures values.Some? ==> Sixes(values.value)
  {
    if chars == [] || Table(chars[0]) == EQUALS then Some([])
    else if Table(chars[0]) == INVALID then None
    else
      match Scan(chars[1..])
      case None => None
      case Some(rest) => Some(if Table(chars[0]) == WHITESPACE then rest else [Table(chars[0])] + rest)
  }

  /** What is decoded, if it is. */
  function Decode(chars: seq<byte>): Option<seq<byte>> {
    match Scan(chars)
    case None => None
    case Some(values) => Some(Unpack(values))
  }

  lemma {:induction false} ScanSymbols(values: seq<nat>, pads: seq<byte>)
    requires Sixes(values) && (pads == [] || pads[0] == PAD_CHAR)
    ensures Scan(Symbols(values) + pads) == Some(values)
  {
    if values != [] {
      TableOfSymbol(values[0]);
      assert (Symbols(values) + pads)[1..] == Symbols(values[1..]) + pads;
      ScanSymbols(values[1..], pads);
      assert (Symbols(values) + pads)[0] == Symbol(values[0]);
      assert [values[0]] + values[1..] == values;
    } else {
      assert Symbols(values) + pads == pads;
    }
  }

  /** The parts of a number below 2^24 put together again. */
  lemma Regroup(n: nat)
    requires n < 0x100_0000
    ensures n / 0x40000 < 64
    ensures n / 0x40000 * 64 + n / 0x1000 % 64 == n / 0x1000
    ensures n / 0x1000 * 64 + n / 0x40 % 64 == n / 0x40
    ensures n / 0x40 * 64 + n % 64 == n
  {
  }

  lemma BytesOf(a: nat, b: nat, c: nat)
    requires a < 0x100 && b < 0x100 && c < 0x100
    ensures var n := a * 0x1_0000 + b * 0x100 + c;
            && n / 0x1_0000 % 0x100 == a && n / 0x100 % 0x100 == b && n % 0x100 == c
            && n / 0x1000 / 0x10 % 0x100 == a
            && n / 0x40 / 0x400 % 0x100 == a && n / 0x40 / 4 % 0x100 == b
  {
    var n := a * 0x1_0000 + b * 0x100 + c;
    DivModUnique(n, 0x1_0000, a, b * 0x100 + c);
    DivModUnique(n, 0x100, a * 0x100 + b, c);
    DivModUnique(a * 0x100 + b, 0x100, a, b);
    DividedTwice(n);
  }

  lemma DividedTwice(n: nat)
    ensures n / 0x1000 / 0x10 == n / 0x1_0000
    ensures n / 0x40 / 0x400 == n / 0x1_0000
    ensures n / 0x40 / 4 == n / 0x100
  {
  }

  lemma GroupRoundTrip(g: seq<byte>)
    requires 0 < |g| <= 3
    ensures GroupBytes(GroupValues(g)) == g
  {
    var n := Number(g);
    Regroup(n);
    BytesOf(g[0], if |g| > 1 then g[1] else 0, if |g| > 2 then g[2] else 0);
    hide Number;
  }

  lemma UnpackLast(v: seq<nat>, w: seq<nat>)
    requires Sixes(v + w) && |v| % 4 == 0 && 0 < |w| <= 4
    ensures Sixes(v) && Sixes(w) && Unpack(v + w) == Unpack(v) + GroupBytes(w)
  {
    hide GroupBytes;
    assert v == (v + w)[..|v|] && w == (v + w)[|v|..];
    assert forall i :: 0 <= i < |v| ==> v[i] == (v + w)[i];
    assert forall i :: 0 <= i < |w| ==> w[i] == (v + w)[|v| + i];
    assert LastGroup(|v + w|, 4) == |v| by { LastGroupIs(|v + w|, |v|); }
  }

  lemma LastGroupIs(n: nat, k: nat)
    requires k % 4 == 0 && k < n <= k + 4
    ensures LastGroup(n, 4) == k
  {
    var q := k / 4;
    assert k == 4 * q;
  }

  lemma FullGroups(k: nat)
    requires k % 3 == 0
    ensures (k + (k + 2) / 3) % 4 == 0
  {
    var q := k / 3;
    assert k == 3 * q && (k + 2) / 3 == q;
  }

  lemma {:induction false} UnpackValues(x: seq<byte>)
    ensures Unpack(Values(x)) == x
  {
    hide GroupBytes, GroupValues, Unpack, LastGroup;
    if x == [] {
      UnpackNothing();
    } else {
      var k := LastGroup(|x|, 3);
      UnpackValues(x[..k]);
      GroupRoundTrip(x[k..]);
      EncodedLength(x[..k]);
      FullGroups(k);
      UnpackLast(Values(x[..k]), GroupValues(x[k..]));
      assert x == x[..k] + x[k..];
    }
  }

  lemma UnpackNothing()
    ensures Unpack([]) == []
  {
  }

  /** Decoding inverts encoding. */
  lemma RoundTrip(x: seq<byte>)
    ensures Decode(Encode(x)) == Some(x)
  {
    ScanSymbols(Values(x), Pads(|x|));
    UnpackValues(x);
  }
}

module Base64 {
  import opened Common
  import opened BitSpec
  import opened Base64Spec

  datatype ErrorCode = Success | BufTooSmall | InvalidData

  /** Lines 23-62: up to four characters, each only if there is room. */
  method EncodeGroup(g: seq<byte>, out: array<byte>, from: nat) returns (ok: bool, resultIndex: nat)
    requires 0 < |g| <= 3 && from <= out.Length
    modifies out
    ensures ok <==> from + |g| + 1 <= out.Length
    ensures ok ==> resultIndex == from + |g| + 1 && out[..resultIndex] == old(out[..from]) + Symbols(GroupValues(g))
  {
    ok, resultIndex := false, from;
    var n := g[0] as int * 0x1_0000;
    if |g| > 1 {
      n := n + g[1] as int * 0x100;
    }
    if |g| > 2 {
      n := n + g[2];
    }
    var n0, n1, n2, n3 := n / 0x40000 % 0x100 % 64, n / 0x1000 % 0x100 % 64, n / 0x40 % 0x100 % 64, n % 0x100 % 64;
    Truncated(n);
    ghost var values := GroupValues(g);
    assert values == [n0, n1, n2, n3][..|g| + 1];
    hide Symbol, GroupValues;
    if resultIndex >= out.Length {
      return;
    }
    out[resultIndex], resultIndex := Symbol(n0), resultIndex + 1;
    if resultIndex >= out.Length {
      return;
    }
    out[resultIndex], resultIndex := Symbol(n1), resultIndex + 1;
    if |g| > 1 {
      if resultIndex >= out.Length {
        return;
      }
      out[resultIndex], resultIndex := Symbol(n2), resultIndex + 1;
    }
    if |g| > 2 {
      if resultIndex >= out.Length {
        return;
      }
      out[resultIndex], resultIndex := Symbol(n3), resultIndex + 1;
    }
    ok := true;
    assert out[from..resultIndex] == Symbols(values);
    assert out[..resultIndex] == old(out[..from]) + out[from..resultIndex];
  }

  /** The casts to eight bits lose nothing of the lower six. */
  lemma Truncated(n: nat)
    requires n < 0x100_0000
    ensures n / 0x40000 % 0x100 % 64 == n / 0x40000
    ensures n / 0x1000 % 0x100 % 64 == n / 0x1000 % 64
    ensures n / 0x40 % 0x100 % 64 == n / 0x40 % 64 && n % 0x100 % 64 == n % 64
  {
    assert n / 0x40000 < 64;
    ModOfMod(n / 0x1000, 64, 4);
    ModOfMod(n / 0x40, 64, 4);
    ModOfMod(n, 64, 4);
  }

  /** chiaki_base64_encode: it succeeds exactly if there is room for the encoding and a zero byte. */
  method Encode(input: seq<byte>, out: array<byte>) returns (err: ErrorCode)
    modifies out
    ensures err == if |Base64Spec.Encode(input)| + 1 <= out.Length then Success else BufTooSmall
    ensures err == Success ==>
              out[..|Base64Spec.Encode(input)| + 1] == Base64Spec.Encode(input) + [0]
  {
    hide Symbols, Values, GroupValues, Pads;
    EncodedLength(input);
    NoValues();
    var x, resultIndex := 0, 0;
    while x < |input|
      invariant 0 <= x <= |input| + 2 && (x % 3 == 0)
      invariant 0 <= resultIndex <= out.Length
      invariant out[..resultIndex] == Symbols(Values(input[..if x <= |input| then x else |input|]))
    {
      var next := if x + 3 <= |input| then x + 3 else |input|;
      NextGroup(input, x, next);
      EncodedLength(input[..next]);
      LengthGrows(next, |input|);
      var done;
      done, resultIndex := EncodeGroup(input[x..next], out, resultIndex);
      if !done {
        return BufTooSmall;
      }
      SumOfMultiples(x, 3, 3);
      x := x + 3;
    }
    assert input[..|input|] == input;
    var ok;
    ok, resultIndex := AddPads(|input|, out, resultIndex);
    if !ok {
      return BufTooSmall;
    }
    assert out[..resultIndex] == Base64Spec.Encode(input);
    if resultIndex >= out.Length {
      return BufTooSmall;
    }
    out[resultIndex] := 0;
    err := Success;
  }

  /** Lines 67-75. */
  method AddPads(size: nat, out: array<byte>, from: nat) returns (ok: bool, resultIndex: nat)
    requires from <= out.Length
    modifies out
    ensures ok <==> from + |Pads(size)| <= out.Length
    ensures ok ==> resultIndex == from + |Pads(size)| && out[..resultIndex] == old(out[..from]) + Pads(size)
  {
    ok, resultIndex := false, from;
    var padCount := size % 3;
    if padCount > 0 {
      while padCount < 3
        invariant size % 3 <= padCount <= 3 && resultIndex == from + padCount - size % 3 <= out.Length
        invariant out[..from] == old(out[..from])
        invariant forall i :: from <= i < resultIndex ==> out[i] == PAD_CHAR
      {
        if resultIndex >= out.Length {
          return;
        }
        out[resultIndex] := PAD_CHAR;
        resultIndex := resultIndex + 1;
        padCount := padCount + 1;
      }
    }
    ok := true;
    assert out[from..resultIndex] == Pads(size);
    assert out[..resultIndex] == out[..from] + out[from..resultIndex];
  }

  lemma NoValues()
    ensures Values([]) == [] && Symbols([]) == []
  {
  }

  lemma LengthGrows(a: nat, b: nat)
    requires a <= b
    ensures a + (a + 2) / 3 <= (b + 2) / 3 * 4
  {
    var q, r := (a + 2) / 3, (b + 2) / 3;
    assert a <= 3 * q && q <= r;
  }

  lemma NextGroup(input: seq<byte>, x: nat, next: nat)
    requires x < next <= |input| && x % 3 == 0 && next <= x + 3
    ensures Symbols(Values(input[..next])) == Symbols(Values(input[..x])) + Symbols(GroupValues(input[x..next]))
    ensures |Values(input[..next])| == |Values(input[..x])| + (next - x) + 1
  {
    hide GroupValues;
    var y := input[..next];
    assert LastGroup(next, 3) == x by {
      var q := x / 3;
      assert x == 3 * q;
    }
    assert y[..x] == input[..x] && y[x..] == input[x..next];
  }

  /** The 6-bit numbers in the accumulator. */
  function Packed(v: seq<nat>): (n: nat) {
    if v == [] then 0 else Packed(v[..|v| - 1]) * 64 + v[|v| - 1]
  }

  lemma PackedMore(v: seq<nat>, c: nat)
    ensures Packed(v + [c]) == Packed(v) * 64 + c
  {
    assert (v + [c])[..|v|] == v;
  }

  lemma PackedDigits(v: seq<nat>)
    requires 1 < |v| <= 4
    ensures Packed(v) == if |v| == 2 then v[0] * 64 + v[1]
                         else if |v| == 3 then (v[0] * 64 + v[1]) * 64 + v[2]
                         else ((v[0] * 64 + v[1]) * 64 + v[2]) * 64 + v[3]
  {
    PackedMore([], v[0]);
    assert v[..|v|] == v;
    assert v[..1] == [] + [v[0]];
    assert v[..2] == v[..1] + [v[1]];
    PackedMore(v[..1], v[1]);
    if |v| > 2 {
      assert v[..3] == v[..2] + [v[2]];
      PackedMore(v[..2], v[2]);
    }
    if |v| > 3 {
      assert v[..4] == v[..3] + [v[3]];
      PackedMore(v[..3], v[3]);
    }
  }

  /** The accumulator holds the number that a group's bytes are taken from. */
  lemma PackedGroup(v: seq<nat>)
    requires 1 < |v| <= 4 && Sixes(v)
    ensures var n := Packed(v);
            GroupBytes(v) == if |v| == 2 then [n / 0x10 % 0x100]
                             else if |v| == 3 then [n / 0x400 % 0x100, n / 4 % 0x100]
                             else [n / 0x1_0000 % 0x100, n / 0x100 % 0x100, n % 0x100]
  {
    hide Packed;
    PackedDigits(v);
  }

  function Prefixed(v: seq<nat>, rest: Option<seq<nat>>): Option<seq<nat>> {
    match rest
    case None => None
    case Some(w) => Some(v + w)
  }

  lemma ScanFirst(chars: seq<byte>)
    requires chars != []
    ensures var c := Table(chars[0]);
            && (c == INVALID ==> Scan(chars) == None)
            && (c == EQUALS ==> Scan(chars) == Some([]))
            && (c == WHITESPACE ==> Scan(chars) == Scan(chars[1..]))
            && (c < 64 ==> Scan(chars) == Prefixed([c], Scan(chars[1..])))
  {
  }

  lemma PrefixedTwice(v: seq<nat>, w: seq<nat>, rest: Option<seq<nat>>)
    ensures Prefixed(v, Prefixed(w, rest)) == Prefixed(v + w, rest)
    ensures Prefixed(v, Some([])) == Some(v)
  {
    assert v + [] == v;
    if rest.Some? {
      assert v + (w + rest.value) == v + w + rest.value;
    }
  }

  /** What one character does to what has been scanned. */
  lemma ScanNext(input: seq<byte>, i: nat, v: seq<nat>)
    requires i < |input| && Scan(input) == Prefixed(v, Scan(input[i..]))
    ensures var c := Table(input[i]);
            && (c == INVALID ==> Scan(input) == None)
            && (c == EQUALS ==> Scan(input) == Some(v))
            && (c == WHITESPACE ==> Scan(input) == Prefixed(v, Scan(input[i + 1..])))
            && (c < 64 ==> Scan(input) == Prefixed(v + [c], Scan(input[i + 1..])))
  {
    hide Table, Scan;
    var rest, c := input[i..], Table(input[i]);
    assert rest[1..] == input[i + 1..];
    ScanFirst(rest);
    PrefixedTwice(v, [c], Scan(rest[1..]));
  }

  /** Too much is decoded already. */
  lemma NoRoom(v: seq<nat>, rest: Option<seq<nat>>, room: nat)
    requires Sixes(v) && |v| * 3 / 4 > room
    ensures Prefixed(v, rest).Some? ==> |v| <= |Prefixed(v, rest).value| && |Prefixed(v, rest).value| * 3 / 4 > room
  {
  }

  /** Lines 124-133: four numbers make three bytes. */
  method WriteGroup(buf: nat, out: array<byte>, len: nat, ghost full: seq<nat>, ghost group: seq<nat>)
    returns (newLen: nat, ok: bool)
    requires Sixes(full) && Sixes(group) && |full| % 4 == 0 && |group| == 4 && buf == Packed(group)
    requires len <= out.Length && out[..len] == Unpack(full)
    modifies out
    ensures newLen == len + 3 == |full + group| * 3 / 4 && (ok <==> newLen <= out.Length)
    ensures ok ==> out[..newLen] == Unpack(full + group)
  {
    hide Unpack, GroupBytes, Packed;
    newLen := len + 3;
    if newLen > out.Length {
      return newLen, false;
    }
    PackedGroup(group);
    UnpackLast(full, group);
    out[len], out[len + 1], out[len + 2] := buf / 0x1_0000 % 0x100, buf / 0x100 % 0x100, buf % 0x100;
    assert out[..newLen] == out[..len] + [out[len], out[len + 1], out[len + 2]];
    ok := true;
  }

  /** Lines 137-149: what is left of a group. */
  method WriteRest(buf: nat, out: array<byte>, len: nat, iter: nat, ghost full: seq<nat>, ghost group: seq<nat>)
    returns (newLen: nat, ok: bool)
    requires Sixes(full) && Sixes(group) && |full| % 4 == 0 && |group| == iter < 4 && buf == Packed(group)
    requires len <= out.Length && out[..len] == Unpack(full)
    modifies out
    ensures Sixes(full + group) && newLen == |Unpack(full + group)| && (ok <==> newLen <= out.Length)
    ensures ok ==> out[..newLen] == Unpack(full + group)
  {
    hide Unpack, GroupBytes, Packed;
    if iter == 0 {
      assert full + group == full;
      return len, true;
    }
    UnpackLast(full, group);
    if iter == 3 {
      PackedGroup(group);
      newLen := len + 2;
      if newLen > out.Length {
        return newLen, false;
      }
      out[len], out[len + 1] := buf / 0x400 % 0x100, buf / 4 % 0x100;
      assert out[..newLen] == out[..len] + [out[len], out[len + 1]];
    } else if iter == 2 {
      PackedGroup(group);
      newLen := len + 1;
      if newLen > out.Length {
        return newLen, false;
      }
      out[len] := buf / 0x10 % 0x100;
      assert out[..newLen] == out[..len] + [out[len]];
    } else {
      newLen := len;
      assert out[..len] == out[..len] + [];
    }
    ok := true;
  }

  /** Lines 119-134: one more number, and the bytes of a complete group. */
  method Accumulate(c: nat, buf: nat, iter: nat, out: array<byte>, len: nat, ghost full: seq<nat>,
                    ghost group: seq<nat>, ghost rest: Option<seq<nat>>)
    returns (newBuf: nat, newIter: nat, newLen: nat, ok: bool, ghost newFull: seq<nat>, ghost newGroup: seq<nat>)
    requires c < 64 && Sixes(full) && Sixes(group) && |full| % 4 == 0 && |group| == iter < 4
    requires buf == Packed(group) && len <= out.Length && out[..len] == Unpack(full)
    modifies out
    ensures Sixes(newFull) && Sixes(newGroup) && |newFull| % 4 == 0 && newFull + newGroup == full + group + [c]
    ensures ok ==> |newGroup| == newIter < 4 && newBuf == Packed(newGroup)
    ensures ok ==> newLen <= out.Length && out[..newLen] == Unpack(newFull)
    ensures !ok ==> |full + group + [c]| * 3 / 4 > out.Length
    ensures !ok && Prefixed(full + group + [c], rest).Some? && Sixes(Prefixed(full + group + [c], rest).value) ==>
              |Unpack(Prefixed(full + group + [c], rest).value)| > out.Length
  {
    hide Unpack, GroupBytes, Packed, Sixes;
    PackedMore(group, c);
    SixesMore(full, group, c);
    assert full + group + [c] == full + (group + [c]);
    newFull, newGroup := full, group + [c];
    newBuf, newIter, newLen, ok := buf * 64 + c, iter + 1, len, true;
    if newIter == 4 {
      newLen, ok := WriteGroup(newBuf, out, len, newFull, newGroup);
      if !ok {
        TooMuch(newFull, newGroup, rest, out.Length);
        return;
      }
      newFull, newGroup := newFull + newGroup, [];
      assert newFull + newGroup == newFull;
      newBuf, newIter := 0, 0;
      NothingPacked();
    }
  }

  /** chiaki_base64_decode: it succeeds exactly for input without foreign characters that fits. */
  method Decode(input: seq<byte>, out: array<byte>) returns (err: ErrorCode, size: nat)
    modifies out
    ensures err == Success <==> Base64Spec.Decode(input).Some? && |Base64Spec.Decode(input).value| <= out.Length
    ensures err == Success ==> size == |Base64Spec.Decode(input).value| && out[..size] == Base64Spec.Decode(input).value
    ensures err == InvalidData ==> Base64Spec.Decode(input).None?
    ensures err == BufTooSmall ==> |input| * 3 / 4 > out.Length
  {
    hide Unpack, GroupBytes, Table, Packed, Scan, Sixes;
    ghost var full: seq<nat>, group: seq<nat> := [], [];
    var iter, buf, len: nat := 0, 0, 0;
    var i, ok := 0, true;
    size := 0;
    ScanStart(input);
    while i < |input|
      invariant 0 <= i <= |input| && Sixes(full) && Sixes(group) && |full| % 4 == 0 && |group| == iter < 4
      invariant |full + group| <= i
      invariant 0 <= buf == Packed(group) && len <= out.Length && out[..len] == Unpack(full)
      invariant Scan(input) == Prefixed(full + group, Scan(input[i..]))
    {
      ScanNext(input, i, full + group);
      ScanEnd(input);
      var c := Table(input[i]);
      i := i + 1;
      if c == INVALID {
        return InvalidData, 0;
      } else if c == EQUALS {
        i := |input|;
      } else if c != WHITESPACE {
        buf, iter, len, ok, full, group := Accumulate(c, buf, iter, out, len, full, group, Scan(input[i..]));
        if !ok {
          return BufTooSmall, 0;
        }
      }
    }
    ScanEnd(input);
    assert full + group + [] == full + group;
    len, ok := WriteRest(buf, out, len, iter, full, group);
    err, size := if ok then Success else BufTooSmall, len;
  }

  lemma NothingPacked()
    ensures Packed([]) == 0 && Sixes([])
  {
  }

  lemma SixesMore(full: seq<nat>, group: seq<nat>, c: nat)
    requires Sixes(full) && Sixes(group) && c < 64
    ensures Sixes(group + [c]) && Sixes(full + (group + [c]))
  {
  }

  lemma ScanStart(input: seq<byte>)
    ensures Scan(input) == Prefixed([] + [], Scan(input[0..])) && Unpack([]) == [] && Packed([]) == 0 && Sixes([])
  {
    assert input[0..] == input;
    assert Scan(input).Some? ==> [] + [] + Scan(input).value == Scan(input).value;
  }

  lemma ScanEnd(input: seq<byte>)
    ensures Scan(input[|input|..]) == Some([])
  {
  }

  lemma TooMuch(full: seq<nat>, group: seq<nat>, rest: Option<seq<nat>>, room: nat)
    requires Sixes(full) && Sixes(group) && |full| % 4 == 0 && |group| == 4
    requires |Unpack(full)| + 3 > room
    ensures Prefixed(full + group, rest).Some? && Sixes(Prefixed(full + group, rest).value) ==>
              |Unpack(Prefixed(full + group, rest).value)| > room
  {
    hide Unpack;
    NoRoom(full + group, rest, room);
  }
}
