/**
 Serial number arithmetic (sections 3.1 and 3.2 of RFC 1982) for 16 and 32 bits,
 and what it says about the unwrapped numbers that the wire numbers stand for.
 */
module SeqNum {
  import opened Common

  datatype Width = W16 | W32

  /** The number of different serial numbers. */
  function Space(w: Width): (n: int)
    ensures n > 0
  {
    match w case W16 => 0x1_0000 case W32 => 0x1_0000_0000
  }

  function Half(w: Width): int {
    match w case W16 => 0x8000 case W32 => 0x8000_0000
  }

  function Bits(w: Width): nat {
    match w case W16 => 16 case W32 => 32
  }

  /** Less-than on serial numbers; the arguments are truncated to the width first. */
  predicate Lt(w: Width, a: nat, b: nat) {
    var a, b := a % Space(w), b % Space(w);
    a != b && ((a < b && b - a < Half(w)) || (a > b && a - b > Half(w)))
  }

  predicate Gt(w: Width, a: nat, b: nat) {
    var a, b := a % Space(w), b % Space(w);
    a != b && ((a < b && b - a > Half(w)) || (a > b && a - b < Half(w)))
  }

  /**
   Serial comparison is comparison of the unwrapped numbers as long as these are
   less than half the space apart; exactly half apart, neither order holds.
   */
  lemma Compare(w: Width, x: int, y: int, a: nat, b: nat)
    requires a % Space(w) == x % Space(w) && b % Space(w) == y % Space(w)
    requires -Half(w) <= y - x <= Half(w)
    ensures Lt(w, a, b) <==> 0 < y - x < Half(w)
    ensures Gt(w, a, b) <==> -Half(w) < y - x < 0
  {
    Residues(x, y, Space(w));
  }

  lemma Residues(x: int, y: int, n: int)
    requires 0 < n && -n < y - x < n
    ensures var d := y % n - x % n; d == y - x || d == y - x + n || d == y - x - n
  {
    var k := x / n - y / n;
    assert y % n - x % n == y - x + n * k;
    MultipleIsFar(n, k - 1);
    MultipleIsFar(n, k + 1);
    assert n * (k - 1) == n * k - n && n * (k + 1) == n * k + n;
    assert -1 <= k <= 1;
  }

  /** The unwrapped number meant by wire number `wire` near the unwrapped number `base`. */
  function Unwrap(w: Width, base: int, wire: nat): (s: int)
    ensures s % Space(w) == wire % Space(w)
    ensures -Half(w) < s - base <= Half(w)
  {
    var d := (wire - base) % Space(w);
    if d <= Half(w) then base + d else base + d - Space(w)
  }

  /** Unwrapping recovers every number less than half the space away. */
  lemma UnwrapRecovers(w: Width, base: int, s: int)
    requires -Half(w) < s - base <= Half(w)
    ensures Unwrap(w, base, s % Space(w)) == s
  {
    match w
    case W16 =>
    case W32 =>
  }

  /** Two numbers of the same residue less than a whole space apart are equal. */
  lemma SameResidue(w: Width, x: int, y: int)
    requires x % Space(w) == y % Space(w) && -Space(w) < x - y < Space(w)
    ensures x == y
  {
    match w
    case W16 =>
    case W32 =>
  }
}
