/** Small datatypes and arithmetic facts shared by every component of the model. */
module Common {

  datatype Option<+T> = None | Some(value: T)

  type byte = b: int | 0 <= b < 0x100

  /** The block size of the cipher and of key positions. */
  const BLOCK := 0x10

  const U16 := 0x1_0000
  const U32 := 0x1_0000_0000
  const U64 := 0x1_0000_0000_0000_0000
  const SIZE_MAX := 0xffff_ffff_ffff_ffff

  lemma ConcatLater<T>(a: seq<T>, b: seq<T>, c: seq<T>)
    ensures (a + b) + c == a + (b + c)
  {
  }

  /** Slices with the same elements are equal. */
  lemma SameSlice<T>(a: seq<T>, b: seq<T>, from: nat, to: nat)
    requires from <= to <= |a| && to <= |b| && forall k :: from <= k < to ==> a[k] == b[k]
    ensures a[from..to] == b[from..to]
  {
    forall i | 0 <= i < to - from ensures a[from..to][i] == b[from..to][i] {
      assert a[from + i] == b[from + i];
    }
  }

  /** Sequences that agree up to `n` have the same slices there. */
  lemma PrefixSlice<T>(a: seq<T>, b: seq<T>, n: nat, from: nat, to: nat)
    requires n <= |a| && n <= |b| && a[..n] == b[..n] && from <= to <= n
    ensures a[from..to] == b[from..to]
  {
    forall k | from <= k < to ensures a[k] == b[k] {
      assert a[..n][k] == b[..n][k];
    }
    SameSlice(a, b, from, to);
  }

  /** Sequences that agree from `n` on have the same slices there. */
  lemma SuffixSlice<T>(a: seq<T>, b: seq<T>, n: nat, from: nat, to: nat)
    requires |a| == |b| && n <= from <= to <= |a| && a[n..] == b[n..]
    ensures a[from..to] == b[from..to]
  {
    forall k | from <= k < to ensures a[k] == b[k] {
      assert a[n..][k - n] == b[n..][k - n];
    }
    SameSlice(a, b, from, to);
  }

  predicate Increasing(s: seq<nat>) {
    forall i, j :: 0 <= i < j < |s| ==> s[i] < s[j]
  }

  /** A nonzero multiple of `n` is at least `n` away from zero. */
  lemma MultipleIsFar(n: int, k: int)
    requires 0 < n
    ensures k >= 1 ==> n * k >= n
    ensures k <= -1 ==> n * k <= -n
  {
    if k >= 1 {
      assert n * k == n + n * (k - 1);
    } else if k <= -1 {
      assert n * k == -n + n * (k + 1);
    }
  }

  /** A quotient and a remainder are determined by their defining equation. */
  lemma DivModUnique(a: int, n: int, q: int, r: int)
    requires 0 < n && a == n * q + r && 0 <= r < n
    ensures a / n == q && a % n == r
  {
    var q', r' := a / n, a % n;
    assert n * (q - q') == r' - r;
    MultipleIsFar(n, q - q');
  }

  /** The test against a quotient is a test of the product. */
  lemma QuotientTest(a: nat, b: nat, max: nat)
    requires 0 < b
    ensures a > max / b <==> a * b > max
  {
    var q := max / b;
    assert b * q <= max < b * q + b;
    if a > q {
      MultipleIsFar(b, a - q);
      assert b * (a - q) == a * b - b * q;
    } else {
      MultipleIsFar(b, q - a + 1);
      assert b * (q - a + 1) == b * q - a * b + b;
    }
  }

  /** Adding a multiple of the modulus does not change a remainder. */
  lemma ModAddMultiple(a: int, n: int, k: int)
    requires 0 < n
    ensures (a + n * k) % n == a % n
    ensures (a + n * k) / n == a / n + k
  {
    assert a + n * k == n * (a / n + k) + a % n by {
      assert n * (a / n + k) == n * (a / n) + n * k;
    }
    DivModUnique(a + n * k, n, a / n + k, a % n);
  }

  /** Reducing first modulo a multiple of `n` changes nothing modulo `n`. */
  lemma ModOfMod(x: int, n: int, q: int)
    requires 0 < n && 0 < q && 0 < n * q
    ensures (x % (n * q)) % n == x % n
  {
    var t := x / (n * q);
    assert x == (n * q) * t + x % (n * q);
    assert (n * q) * t == n * (q * t);
    ModAddMultiple(x % (n * q), n, q * t);
  }

  /** Distinct integers closer than `n` have distinct remainders. */
  lemma ModInjective(x: int, y: int, n: int)
    requires 0 < n && x < y < x + n
    ensures x % n != y % n
  {
    var k := y / n - x / n;
    assert n * k == (y - y % n) - (x - x % n);
    MultipleIsFar(n, k);
  }

  lemma AddRemainder(x: int, d: int, n: int)
    requires 0 < n
    ensures (x % n + d) % n == (x + d) % n
  {
    ModAddMultiple(x % n + d, n, x / n);
    assert x % n + d + n * (x / n) == x + d;
  }

  lemma SumOfMultiples(x: int, y: int, n: int)
    requires 0 < n && x % n == 0 && y % n == 0
    ensures (x + y) % n == 0
  {
    ModAddMultiple(x, n, y / n);
  }

  /** A remainder of multiples is a multiple, at least one step below the modulus. */
  lemma RemainderOfMultiple(x: int, n: int, m: int)
    requires 0 < n && 0 < m && x % n == 0 && m % n == 0
    ensures (x % m) % n == 0 && x % m + n <= m
  {
    var q := m / n;
    ModOfMod(x, n, q);
    var a := (x % m) / n;
    assert m == n * q && x % m == n * a;
    assert n * (q - a) == m - x % m;
    MultipleIsFar(n, q - a);
  }

  function Pow2(e: nat): (p: nat)
    ensures 0 < p
  {
    if e == 0 then 1 else 2 * Pow2(e - 1)
  }

  lemma {:induction false} Pow2Add(a: nat, b: nat)
    ensures Pow2(a + b) == Pow2(a) * Pow2(b)
    decreases b
  {
    if b == 0 {
    } else {
      Pow2Add(a, b - 1);
      assert Pow2(a) * Pow2(b) == Pow2(a) * (2 * Pow2(b - 1)) == 2 * (Pow2(a) * Pow2(b - 1));
    }
  }

  lemma {:induction false} Pow2Monotone(a: nat, b: nat)
    requires a <= b
    ensures Pow2(a) <= Pow2(b)
    decreases b - a
  {
    if a < b {
      Pow2Monotone(a + 1, b);
    }
  }

  /** Bit `k` of a number. */
  predicate BitSet(a: nat, k: nat) {
    a / Pow2(k) % 2 == 1
  }

  lemma LowestBit(a: nat)
    ensures BitSet(a, 0) <==> a % 2 == 1
  {
  }

  lemma NextBit(a: nat, k: nat)
    requires k > 0
    ensures BitSet(a, k) <==> BitSet(a / 2, k - 1)
  {
    var h, p := a / 2, Pow2(k - 1);
    var q, r := h / p, h % p;
    assert h == p * q + r;
    assert a == 2 * (p * q + r) + a % 2 == (2 * p) * q + (2 * r + a % 2);
    DivModUnique(a, 2 * p, q, 2 * r + a % 2);
  }
}
