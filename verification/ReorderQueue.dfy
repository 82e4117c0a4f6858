/**
 The reorder queue of lib/src/reorderqueue.c.

 Module ReorderSpec describes the queue over unwrapped sequence numbers, as a
 window of slots, with no wrap-around and no ring. Module ReorderQueue is the ring
 over wire numbers, proved to behave like the former.
 */
module ReorderSpec {
  import opened Common

  datatype Strategy = DropBegin | DropEnd

  /**
   `slots[i]` belongs to number `begin + i`. `dropped` and `pulled` record, in order,
   what was handed to the drop callback and what was pulled.
   */
  datatype Queue<T> = Queue(begin: int, slots: seq<Option<T>>, dropped: seq<(int, T)>, pulled: seq<(int, T)>)

  function Empty<T>(begin: int): Queue<T> {
    Queue(begin, [], [], [])
  }

  /** `slots` extended to length `n` with empty slots. */
  function Pad<T>(slots: seq<Option<T>>, n: nat): (p: seq<Option<T>>)
    requires |slots| <= n
    ensures |p| == n
  {
    slots + seq(n - |slots|, _ => None)
  }

  /** What the occupied slots hold, with their numbers, in order. */
  function Occupied<T>(begin: int, slots: seq<Option<T>>): (o: seq<(int, T)>)
    decreases |slots|
  {
    if slots == [] then
      []
    else
      var last := slots[|slots| - 1];
      Occupied(begin, slots[..|slots| - 1]) + (if last.Some? then [(begin + |slots| - 1, last.value)] else [])
  }

  /** The `k` lowest numbers leave the window through the drop callback. */
  function Evict<T>(q: Queue<T>, k: nat): Queue<T>
    requires k <= |q.slots|
  {
    q.(begin := q.begin + k, slots := q.slots[k..], dropped := q.dropped + Occupied(q.begin, q.slots[..k]))
  }

  lemma EvictOne<T>(q: Queue<T>)
    requires q.slots != []
    ensures Evict(q, 1) ==
            q.(begin := q.begin + 1, slots := q.slots[1..],
               dropped := q.dropped + if q.slots[0].Some? then [(q.begin, q.slots[0].value)] else [])
  {
    assert q.slots[..1] == [q.slots[0]] && Occupied(q.begin, q.slots[..1][..0]) == [];
  }

  lemma EvictNothing<T>(q: Queue<T>)
    ensures Evict(q, 0) == q
  {
    assert q.slots[..0] == [] && q.slots[0..] == q.slots;
    assert q.dropped + [] == q.dropped;
  }

  lemma {:induction false} OccupiedSplit<T>(begin: int, a: seq<Option<T>>, b: seq<Option<T>>)
    ensures Occupied(begin, a + b) == Occupied(begin, a) + Occupied(begin + |a|, b)
    decreases |b|
  {
    if b == [] {
      assert a + b == a;
    } else {
      var n := |b| - 1;
      OccupiedSplit(begin, a, b[..n]);
      assert (a + b)[..|a + b| - 1] == a + b[..n];
    }
  }

  lemma EvictOneMore<T>(q: Queue<T>, k: nat)
    requires k < |q.slots|
    ensures Evict(Evict(q, k), 1) == Evict(q, k + 1)
    ensures |Evict(q, k + 1).slots| == |q.slots| - k - 1
  {
    var e := Evict(q, k);
    OccupiedSplit(q.begin, q.slots[..k], e.slots[..1]);
    assert q.slots[..k] + e.slots[..1] == q.slots[..k + 1];
    assert e.slots[1..] == q.slots[k + 1..];
  }

  /** Makes `s` fit into a window of `cap` numbers; a window left empty jumps to `s`. */
  function MakeRoom<T>(q: Queue<T>, cap: nat, s: int): Queue<T>
    requires q.begin + cap <= s
  {
    var k := s + 1 - q.begin - cap;
    if k < |q.slots| then Evict(q, k) else Evict(q, |q.slots|).(begin := s)
  }

  lemma MakeRoomIsEvict<T>(q: Queue<T>, cap: nat, s: int, j: nat)
    requires q.begin + cap <= s && j <= |q.slots|
    requires j == |q.slots| || j == s + 1 - q.begin - cap
    requires j <= s + 1 - q.begin - cap
    ensures MakeRoom(q, cap, s) == if j == |q.slots| then Evict(q, j).(begin := s) else Evict(q, j)
  {
  }

  /** Opens the window up to `s` and stores `x` there. */
  function Append<T>(q: Queue<T>, s: int, x: T): Queue<T>
    requires q.begin + |q.slots| <= s
  {
    q.(slots := Pad(q.slots, s - q.begin) + [Some(x)])
  }

  lemma PadNothing<T>(slots: seq<Option<T>>)
    ensures Pad(slots, |slots|) == slots
  {
  }

  lemma PadOneMore<T>(slots: seq<Option<T>>, n: nat)
    requires |slots| <= n
    ensures Pad(slots, n) + [None] == Pad(slots, n + 1)
  {
  }

  lemma AppendIsPad<T>(q: Queue<T>, s: int, x: T)
    requires q.begin + |q.slots| <= s
    ensures q.(slots := Pad(q.slots, s + 1 - q.begin)[s - q.begin := Some(x)]) == Append(q, s, x)
  {
    PadOneMore(q.slots, s - q.begin);
  }

  function Push<T>(q: Queue<T>, cap: nat, strategy: Strategy, s: int, x: T): Queue<T>
    requires 0 < cap && |q.slots| <= cap
  {
    var off := s - q.begin;
    if off < 0 || (off < |q.slots| && q.slots[off].Some?) then
      q.(dropped := q.dropped + [(s, x)])
    else if off < |q.slots| then
      q.(slots := q.slots[off := Some(x)])
    else if off < cap then
      Append(q, s, x)
    else if strategy.DropEnd? then
      q.(dropped := q.dropped + [(s, x)])
    else
      Append(MakeRoom(q, cap, s), s, x)
  }

  predicate CanPull<T>(q: Queue<T>) {
    q.slots != [] && q.slots[0].Some?
  }

  function Pull<T>(q: Queue<T>): Queue<T>
    requires CanPull(q)
  {
    q.(begin := q.begin + 1, slots := q.slots[1..], pulled := q.pulled + [(q.begin, q.slots[0].value)])
  }

  /** The number after the last of the window. */
  function End<T>(q: Queue<T>): int {
    q.begin + |q.slots|
  }

  predicate Waits<T>(q: Queue<T>, n: int) {
    q.begin <= n < End(q) && q.slots[n - q.begin].Some?
  }

  /** What waits in the window: a map from numbers to elements. */
  ghost function Waiting<T>(q: Queue<T>): map<int, T> {
    map n | q.begin <= n < End(q) && Waits(q, n) :: q.slots[n - q.begin].value
  }

  /** A number waits exactly if its slot is occupied. */
  lemma WaitsAt<T>(q: Queue<T>, n: int)
    ensures n in Waiting(q) <==> q.begin <= n < End(q) && q.slots[n - q.begin].Some?
    ensures n in Waiting(q) ==> Waiting(q)[n] == q.slots[n - q.begin].value
  {
  }

  lemma AppendWaiting<T>(q: Queue<T>, s: int, x: T)
    requires End(q) <= s
    ensures var r := Append(q, s, x);
            && Waiting(r) == Waiting(q)[s := x] && r.begin == q.begin && End(r) == s + 1
            && r.dropped == q.dropped && r.pulled == q.pulled
  {
    hide Waiting;
    var r := Append(q, s, x);
    forall n ensures n in Waiting(r) <==> n in Waiting(q) || n == s
      ensures n in Waiting(r) ==> Waiting(r)[n] == if n == s then x else Waiting(q)[n]
    {
      WaitsAt(q, n);
      WaitsAt(r, n);
    }
  }

  lemma InsertWaiting<T>(q: Queue<T>, s: int, x: T)
    requires q.begin <= s < End(q)
    ensures Waiting(q.(slots := q.slots[s - q.begin := Some(x)])) == Waiting(q)[s := x]
  {
    hide Waiting;
    var r := q.(slots := q.slots[s - q.begin := Some(x)]);
    forall n ensures n in Waiting(r) <==> n in Waiting(q) || n == s
      ensures n in Waiting(r) ==> Waiting(r)[n] == if n == s then x else Waiting(q)[n]
    {
      WaitsAt(q, n);
      WaitsAt(r, n);
    }
  }

  lemma DropWaiting<T>(q: Queue<T>, d: seq<(int, T)>)
    ensures Waiting(q.(dropped := d)) == Waiting(q)
  {
    hide Waiting;
    forall n ensures n in Waiting(q.(dropped := d)) <==> n in Waiting(q)
      ensures n in Waiting(q) ==> Waiting(q.(dropped := d))[n] == Waiting(q)[n]
    {
      WaitsAt(q, n);
      WaitsAt(q.(dropped := d), n);
    }
  }

  /**
   A push whose number is not too far ahead for the window: the number is among those
   waiting afterwards exactly if it lies in the window's reach, and it is stored unless it
   was waiting already; otherwise the pushed element, and nothing else, is dropped.
   */
  lemma PushWaiting<T>(q: Queue<T>, cap: nat, strategy: Strategy, s: int, x: T)
    requires 0 < cap && |q.slots| <= cap && (strategy.DropEnd? || s < q.begin + cap)
    ensures var r := Push(q, cap, strategy, s, x);
            var stored := q.begin <= s < q.begin + cap && s !in Waiting(q);
            && r.begin == q.begin && r.pulled == q.pulled
            && Waiting(r) == (if stored then Waiting(q)[s := x] else Waiting(q))
            && End(r) == (if stored && End(q) <= s then s + 1 else End(q))
            && r.dropped == (if stored then q.dropped else q.dropped + [(s, x)])
  {
    hide Append, Waiting;
    WaitsAt(q, s);
    DropWaiting(q, q.dropped + [(s, x)]);
    if q.begin <= s < End(q) {
      InsertWaiting(q, s, x);
    } else if End(q) <= s < q.begin + cap {
      AppendWaiting(q, s, x);
    }
  }

  /** Every number that is waiting lies in the window. */
  lemma {:induction false} OccupiedInWindow<T>(begin: int, slots: seq<Option<T>>, i: nat)
    requires i < |Occupied(begin, slots)|
    ensures begin <= Occupied(begin, slots)[i].0 < begin + |slots|
    decreases |slots|
  {
    var o := Occupied(begin, slots[..|slots| - 1]);
    if i < |o| {
      OccupiedInWindow(begin, slots[..|slots| - 1], i);
    }
  }

  lemma {:induction false} OccupiedInOrder<T>(begin: int, slots: seq<Option<T>>, i: nat, j: nat)
    requires i < j < |Occupied(begin, slots)|
    ensures Occupied(begin, slots)[i].0 < Occupied(begin, slots)[j].0
    decreases |slots|
  {
    var init := slots[..|slots| - 1];
    if j < |Occupied(begin, init)| {
      OccupiedInOrder(begin, init, i, j);
    } else {
      OccupiedInWindow(begin, init, i);
    }
  }

  lemma {:induction false} OccupiedHas<T>(begin: int, slots: seq<Option<T>>, n: int, y: T)
    ensures (n, y) in Occupied(begin, slots) <==> begin <= n < begin + |slots| && slots[n - begin] == Some(y)
    decreases |slots|
  {
    if slots != [] {
      OccupiedHas(begin, slots[..|slots| - 1], n, y);
    }
  }

  /** An element is listed exactly if it is waiting; the list is in the order of the numbers. */
  lemma OccupiedExactly<T>(begin: int, slots: seq<Option<T>>)
    ensures var o := Occupied(begin, slots);
            && (forall n, y :: (n, y) in o <==> begin <= n < begin + |slots| && slots[n - begin] == Some(y))
            && (forall i, j :: 0 <= i < j < |o| ==> o[i].0 < o[j].0)
  {
    hide Occupied;
    forall i, j | 0 <= i < j < |Occupied(begin, slots)|
      ensures Occupied(begin, slots)[i].0 < Occupied(begin, slots)[j].0
    {
      OccupiedInOrder(begin, slots, i, j);
    }
    forall n, y ensures (n, y) in Occupied(begin, slots) <==>
                        begin <= n < begin + |slots| && slots[n - begin] == Some(y)
    {
      OccupiedHas(begin, slots, n, y);
    }
  }

  /**
   Under the begin-dropping strategy, a number too far ahead is stored always; what is
   dropped for it, in order, is what is too far behind it, and if that is the whole window
   then the new one begins with the pushed number.
   */
  lemma PushFarAhead<T>(q: Queue<T>, cap: nat, s: int, x: T)
    requires 0 < cap && |q.slots| <= cap && q.begin + cap <= s
    ensures var r := Push(q, cap, DropBegin, s, x);
            && r.pulled == q.pulled && q.dropped <= r.dropped
            && r.begin == (if s + 1 - cap < End(q) then s + 1 - cap else s) && End(r) == s + 1
            && Waiting(r) == (map n | n in Waiting(q) && s < n + cap :: Waiting(q)[n])[s := x]
            && var gone := r.dropped[|q.dropped|..];
            && (forall n, y :: (n, y) in gone <==> n in Waiting(q) && n + cap <= s && Waiting(q)[n] == y)
            && (forall i, j :: 0 <= i < j < |gone| ==> gone[i].0 < gone[j].0)
  {
    hide Append, Waiting, Occupied;
    var k := if s + 1 - q.begin - cap < |q.slots| then s + 1 - q.begin - cap else |q.slots|;
    var e := MakeRoom(q, cap, s);
    var r := Append(e, s, x);
    AppendWaiting(e, s, x);
    OccupiedExactly(q.begin, q.slots[..k]);
    assert r.dropped[|q.dropped|..] == Occupied(q.begin, q.slots[..k]);
    forall n ensures n in Waiting(e) <==> n in Waiting(q) && s < n + cap
      ensures n in Waiting(e) ==> Waiting(e)[n] == Waiting(q)[n]
    {
      WaitsAt(q, n);
      WaitsAt(e, n);
    }
    forall n, y ensures (n, y) in Occupied(q.begin, q.slots[..k]) <==>
                        n in Waiting(q) && n + cap <= s && Waiting(q)[n] == y
    {
      WaitsAt(q, n);
    }
  }

  /** Pulling takes the element with the lowest number of the window, if it is waiting. */
  lemma PullWaiting<T>(q: Queue<T>)
    ensures CanPull(q) <==> q.begin in Waiting(q)
    ensures CanPull(q) ==> var r := Pull(q);
              && Waiting(r) == Waiting(q) - {q.begin} && r.begin == q.begin + 1 && End(r) == End(q)
              && r.pulled == q.pulled + [(q.begin, Waiting(q)[q.begin])] && r.dropped == q.dropped
  {
    hide Waiting;
    WaitsAt(q, q.begin);
    if CanPull(q) {
      var r := Pull(q);
      forall n ensures n in Waiting(r) <==> n in Waiting(q) && n != q.begin
        ensures n in Waiting(r) ==> Waiting(r)[n] == Waiting(q)[n]
      {
        WaitsAt(q, n);
        WaitsAt(r, n);
      }
    }
  }
}

module ReorderQueue {
  import opened Common
  import opened SeqNum
  import Spec = ReorderSpec

  datatype Entry<T> = Entry(user: Option<T>, isSet: bool)

  /** `seq_num_add`: the 16-bit version adds in the wider integer type and does not truncate the sum. */
  function Add(w: Width, a: nat, b: nat): nat {
    match w
    case W16 => a % Space(W16) + b % Space(W16)
    case W32 => (a % Space(W32) + b % Space(W32)) % Space(W32)
  }

  predicate Ge(w: Width, a: nat, b: nat) {
    a == b || Gt(w, a, b)
  }

  /**
   When the assertion in push (line 83) fails. `d` is how far the pushed number lies
   after `begin`, modulo the number space. Exactly half the space away from an empty
   queue it fails for both widths; the untruncated 16-bit sum makes it fail as well for
   the first and for the next number of a nonempty queue once `begin` or the end of the
   window has gone past 65535.
   */
  predicate AssertionFails(w: Width, begin: nat, count: nat, wire: nat) {
    var d := (wire - begin) % Space(w);
    || (count == 0 && d == Half(w))
    || (w.W16? && count > 0 && d == 0 && begin == Space(w))
    || (w.W16? && count > 0 && d == count && begin % Space(w) + count >= Space(w))
  }

  /**
   When push writes over the element that waits in a queue of one slot: a number exactly
   half the space ahead is neither behind nor beyond it, because every comparison at that
   distance is false.
   */
  predicate Overwrites(w: Width, sizeExp: nat, count: nat, off: int) {
    sizeExp == 0 && count == 1 && off == Half(w)
  }

  lemma OverwritesMeans(w: Width, sizeExp: nat, count: nat, off: int)
    ensures Overwrites(w, sizeExp, count, off) <==> sizeExp == 0 && count == 1 && off == Half(w)
    ensures Overwrites(w, sizeExp, count, off) ==> off > 1
  {
  }

  /** What push makes of a queue of 2^sizeExp slots, unless its assertion fails. */
  function Pushed<T>(w: Width, sizeExp: nat, q: Spec.Queue<T>, strategy: Spec.Strategy, s: int, x: T): Spec.Queue<T>
    requires |q.slots| <= Pow2(sizeExp)
  {
    if Overwrites(w, sizeExp, |q.slots|, s - q.begin) then q.(slots := [Some(x)])
    else Spec.Push(q, Pow2(sizeExp), strategy, s, x)
  }

  /** The cases of a push at or after the end of the window. */
  lemma PushedBeyond<T>(w: Width, e: nat, q: Spec.Queue<T>, strategy: Spec.Strategy, s: int, x: T)
    requires |q.slots| <= Pow2(e) && |q.slots| <= s - q.begin
    ensures Pushed(w, e, q, strategy, s, x) ==
            if Overwrites(w, e, |q.slots|, s - q.begin) then q.(slots := [Some(x)])
            else if s - q.begin < Pow2(e) then Spec.Append(q, s, x)
            else if strategy.DropEnd? then q.(dropped := q.dropped + [(s, x)])
            else Spec.Append(Spec.MakeRoom(q, Pow2(e), s), s, x)
    ensures s - q.begin >= Pow2(e) ==>
              var r := Spec.MakeRoom(q, Pow2(e), s); |r.slots| <= s - r.begin < Pow2(e)
  {
  }

  lemma SpaceIsPow2(w: Width)
    ensures Space(w) == Pow2(Bits(w)) && Half(w) == Pow2(Bits(w) - 1)
  {
    assert Pow2(8) == 0x100;
    Pow2Add(8, 8);
    assert Pow2(16) == 0x1_0000;
    Pow2Add(16, 16);
    assert Pow2(32) == 0x1_0000_0000;
  }

  /** The ring size divides the number space, at least four times. */
  lemma CapDivides(w: Width, e: nat) returns (q: nat)
    requires e + 1 < Bits(w)
    ensures 0 < q && Space(w) == Pow2(e) * q
    ensures Pow2(e) == 1 <==> e == 0
    ensures 2 * Pow2(e) <= Half(w)
  {
    q := Pow2(Bits(w) - e);
    SpaceIsPow2(w);
    Pow2Add(e, Bits(w) - e);
    Pow2Monotone(e + 1, Bits(w) - 1);
  }

  /** So wire and unwrapped numbers share a slot. */
  lemma SameSlot(w: Width, e: nat, a: int, s: int)
    requires e + 1 < Bits(w) && a % Space(w) == s % Space(w)
    ensures a % Pow2(e) == s % Pow2(e)
    ensures 2 * Pow2(e) <= Half(w)
  {
    var q := CapDivides(w, e);
    ModOfMod(a, Pow2(e), q);
    ModOfMod(s, Pow2(e), q);
  }

  /** In a ring of one slot all numbers do. */
  lemma OneSlot(a: int, b: int)
    ensures a % Pow2(0) == b % Pow2(0)
  {
  }

  /** The slots of a window no larger than the ring are distinct. */
  lemma SlotsDistinct(b: int, cap: int, i: nat, j: nat)
    requires 0 < cap && i < cap && j < cap && i != j
    ensures (b + i) % cap != (b + j) % cap
  {
    if i < j {
      ModInjective(b + i, b + j, cap);
    } else {
      ModInjective(b + j, b + i, cap);
    }
  }

  lemma AddIsCongruent(w: Width, a: nat, b: nat, x: int, y: int)
    requires a % Space(w) == x % Space(w) && b % Space(w) == y % Space(w)
    ensures Add(w, a, b) % Space(w) == (x + y) % Space(w)
  {
    match w
    case W16 =>
    case W32 =>
  }

  lemma AddOne(w: Width, a: nat, x: int)
    requires a % Space(w) == x % Space(w)
    ensures Add(w, a, 1) % Space(w) == (x + 1) % Space(w)
    ensures Add(w, a, 1) <= Space(w) && (w.W32? ==> Add(w, a, 1) < Space(w))
  {
    AddIsCongruent(w, a, 1, x, 1);
  }

  /** Only the 16-bit sum leaves the number space. */
  lemma AddOverflows(w: Width, a: nat, b: nat)
    requires b < Half(w)
    ensures Add(w, a, b) >= Space(w) <==> w.W16? && a % Space(w) + b >= Space(w)
  {
  }

  /** Equality of wire numbers, when one of them may be an untruncated sum. */
  lemma WireEqual(w: Width, wire: nat, s: int, a: nat, x: int)
    requires wire < Space(w) && wire == s % Space(w) && a % Space(w) == x % Space(w)
    requires -Space(w) < s - x < Space(w)
    ensures wire == a <==> s == x && a < Space(w)
  {
    if s != x {
      assert wire != a % Space(w) by {
        if wire == a % Space(w) {
          SameResidue(w, s, x);
        }
      }
    }
  }

  lemma SameOffset(w: Width, a: int, b: int, wire: int)
    requires a % Space(w) == b % Space(w)
    ensures (wire - a) % Space(w) == (wire - b) % Space(w)
  {
    match w
    case W16 =>
    case W32 =>
  }

  /** The assertion's condition, in unwrapped numbers. */
  lemma AssertionFailsUnwrapped(w: Width, begin: nat, b: int, count: nat, wire: nat)
    requires begin % Space(w) == b % Space(w)
    requires wire < Space(w) && count < Half(w)
    ensures var off := Unwrap(w, b, wire) - b;
            AssertionFails(w, begin, count, wire) <==>
            || (count == 0 && off == Half(w))
            || (w.W16? && count > 0 && off == 0 && begin == Space(w))
            || (w.W16? && count > 0 && off == count && begin % Space(w) + count >= Space(w))
  {
    SameOffset(w, begin, b, wire);
  }

  /** Past the assertion, a number half the space ahead means that something waits. */
  lemma NotAtHalf(w: Width, begin: nat, b: int, count: nat, wire: nat)
    requires begin % Space(w) == b % Space(w) && wire < Space(w) && count < Half(w)
    requires !AssertionFails(w, begin, count, wire)
    ensures Unwrap(w, b, wire) - b == Half(w) ==> count > 0
  {
    AssertionFailsUnwrapped(w, begin, b, count, wire);
  }

  /** What push's comparisons of wire numbers say about the unwrapped numbers. */
  lemma PushComparisons(w: Width, begin: nat, b: int, count: nat, cap: nat, wire: nat)
    requires begin % Space(w) == b % Space(w) && begin <= Space(w) && (w.W32? ==> begin < Space(w))
    requires wire < Space(w) && count <= cap && 1 <= cap && 2 * cap <= Half(w)
    ensures var s, end := Unwrap(w, b, wire), Add(w, begin, count);
            var inWindow := Ge(w, wire, begin) && Lt(w, wire, end);
            if AssertionFails(w, begin, count, wire) then
              !inWindow && !Lt(w, wire, begin) && !Ge(w, wire, end)
            else
              && (inWindow <==> 0 <= s - b < count)
              && (!inWindow ==> (Lt(w, wire, begin) <==> s < b))
              && (s - b >= count ==> Ge(w, wire, end))
  {
    hide Lt, Gt, Add, Unwrap, AssertionFails;
    var s, end := Unwrap(w, b, wire), Add(w, begin, count);
    AssertionFailsUnwrapped(w, begin, b, count, wire);
    AddIsCongruent(w, begin, count, b, count);
    AddOverflows(w, begin, count);
    WireEqual(w, wire, s, begin, b);
    WireEqual(w, wire, s, end, b + count);
    Compare(w, s, b, wire, begin);
    if s - b - count > -Half(w) {
      Compare(w, s, b + count, wire, end);
    } else {
      FarBehind(w, s, b + count, wire, end);
    }
  }

  /** Up to a quarter of the space further back than half of it, the order is reversed. */
  lemma FarBehind(w: Width, x: int, y: int, a: nat, b: nat)
    requires a % Space(w) == x % Space(w) && b % Space(w) == y % Space(w)
    requires Half(w) <= y - x < Space(w)
    ensures !Lt(w, a, b)
  {
    match w
    case W16 =>
    case W32 =>
  }

  /** Whether, after `j` of `n` elements were dropped, the pushed number is still too far ahead. */
  lemma RoomTest(w: Width, end: nat, b: int, n: nat, j: nat, cap: nat, newEnd: nat, s: int)
    requires end % Space(w) == (b + n) % Space(w) && newEnd % Space(w) == (s + 1) % Space(w)
    requires j <= n <= cap && 1 <= cap <= s - b <= Half(w) && 2 * cap <= Half(w) && s + 1 - b - cap < Half(w)
    requires j <= s + 1 - b - cap
    ensures Lt(w, Add(w, end, cap - (n - j)), newEnd) <==> j < s + 1 - b - cap
  {
    AddIsCongruent(w, end, cap - (n - j), b + n, cap - (n - j));
    Compare(w, b + j + cap, s + 1, Add(w, end, cap - (n - j)), newEnd);
  }

  /**
   Whether the pushed number lies beyond the largest possible window; with one slot and
   exactly half the space ahead it does, but the test says no.
   */
  lemma FullTest(w: Width, begin: nat, count: nat, b: int, cap: nat, wire: nat, s: int)
    requires begin % Space(w) == b % Space(w) && wire % Space(w) == s % Space(w)
    requires count <= cap && 1 <= cap && 2 * cap <= Half(w) && count <= s - b <= Half(w)
    ensures var end, newEnd := Add(w, begin, count), Add(w, wire, 1);
            && end % Space(w) == (b + count) % Space(w)
            && newEnd % Space(w) == (s + 1) % Space(w)
            && (Lt(w, Add(w, end, cap - count), newEnd) <==> s - b >= cap && s + 1 - b - cap < Half(w))
  {
    var end := Add(w, begin, count);
    AddIsCongruent(w, begin, count, b, count);
    AddIsCongruent(w, end, cap - count, b + count, cap - count);
    AddIsCongruent(w, wire, 1, s, 1);
    Compare(w, b + cap, s + 1, Add(w, end, cap - count), Add(w, wire, 1));
  }

  /** Whether the window, once `count` long, still ends before the pushed number. */
  lemma EndTest(w: Width, begin: nat, count: nat, b: int, newEnd: nat, s: int)
    requires begin % Space(w) == b % Space(w) && newEnd % Space(w) == (s + 1) % Space(w)
    requires 0 <= s + 1 - b - count <= Half(w)
    ensures Add(w, begin, count) % Space(w) == (b + count) % Space(w)
    ensures Lt(w, Add(w, begin, count), newEnd) <==> 0 < s + 1 - b - count < Half(w)
  {
    AddIsCongruent(w, begin, count, b, count);
    Compare(w, b + count, s + 1, Add(w, begin, count), newEnd);
  }

  class Queue<T> {
    const width: Width
    const sizeExp: nat
    const strategy: Spec.Strategy
    var queue: array<Entry<T>>
    var begin: nat
    var count: nat
    var dropped: seq<(nat, T)> // the calls of the drop callback
    ghost var model: Spec.Queue<T>

    ghost function Cap(): (c: nat)
      ensures c == Pow2(sizeExp)
    {
      Pow2(sizeExp)
    }

    /** The unwrapped queue, and how the ring represents it. */
    ghost predicate Valid()
      reads this, queue
      ensures Valid() ==> sizeExp + 1 < Bits(width) && queue.Length == Cap()
      ensures Valid() ==> count == |model.slots| <= Cap()
      ensures Valid() ==> begin % Space(width) == model.begin % Space(width)
      ensures Valid() ==> begin <= Space(width) && (width.W32? ==> begin < Space(width))
    {
      && sizeExp + 1 < Bits(width)
      && queue.Length == Cap()
      && count == |model.slots| <= Cap()
      && begin <= Space(width) && (width.W32? ==> begin < Space(width))
      && begin % Space(width) == model.begin % Space(width)
      && (forall i :: 0 <= i < queue.Length && queue[i].isSet ==> queue[i].user.Some?)
      && (forall i :: 0 <= i < count ==> Slot(model.begin + i) == model.slots[i])
      && SameOnTheWire(dropped, model.dropped)
    }

    ghost function Slot(s: int): Option<T>
      reads this`queue, queue
      requires queue.Length == Cap()
    {
      var e := queue[s % Cap()];
      if e.isSet then e.user else None
    }

    ghost predicate SameOnTheWire(wire: seq<(nat, T)>, log: seq<(int, T)>) {
      && |wire| == |log|
      && forall i :: 0 <= i < |log| ==> wire[i].0 % Space(width) == log[i].0 % Space(width) && wire[i].1 == log[i].1
    }

    constructor (width: Width, sizeExp: nat, start: nat, strategy: Spec.Strategy)
      requires sizeExp + 1 < Bits(width) && start < Space(width)
      ensures Valid() && fresh(queue)
      ensures model == Spec.Empty(start)
      ensures this.width == width && this.sizeExp == sizeExp && this.strategy == strategy
      ensures begin == start && dropped == []
    {
      this.width, this.sizeExp, this.strategy := width, sizeExp, strategy;
      queue := new Entry<T>[Pow2(sizeExp)](_ => Entry(None, false));
      begin, count, dropped := start, 0, [];
      model := Spec.Empty(start);
    }

    /** Reads the entry of a number inside the window. */
    method GetEntry(wire: nat, ghost off: nat) returns (e: Entry<T>)
      requires Valid() && off < count && wire % Space(width) == (model.begin + off) % Space(width)
      ensures e.isSet <==> model.slots[off].Some?
      ensures e.isSet ==> e.user == model.slots[off]
    {
      SameSlot(width, sizeExp, wire, model.begin + off);
      e := queue[wire % queue.Length];
      assert Slot(model.begin + off) == model.slots[off];
    }

    /** Overwrites the entry of a number inside the window. */
    method SetEntry(wire: nat, e: Entry<T>, ghost off: nat)
      requires Valid() && off < count
      requires wire % Space(width) == (model.begin + off) % Space(width) || sizeExp == 0
      requires e.isSet ==> e.user.Some?
      modifies this`model, queue
      ensures Valid()
      ensures model == old(model).(slots := old(model).slots[off := if e.isSet then e.user else None])
    {
      hide Pow2, Space, SameOnTheWire;
      if sizeExp > 0 {
        SameSlot(width, sizeExp, wire, model.begin + off);
      } else {
        OneSlot(wire, model.begin + off);
      }
      queue[wire % queue.Length] := e;
      forall i | 0 <= i < count && i != off ensures Slot(model.begin + i) == model.slots[i] {
        SlotsDistinct(model.begin, Cap(), i, off);
        assert old(Slot(model.begin + i) == model.slots[i]);
      }
      model := model.(slots := model.slots[off := if e.isSet then e.user else None]);
    }

    /** `drop_it`: the pushed element itself goes to the drop callback. */
    method DropNew(wire: nat, x: T, ghost s: int)
      requires Valid() && wire % Space(width) == s % Space(width)
      modifies this`model, this`dropped
      ensures Valid()
      ensures model == old(model).(dropped := old(model).dropped + [(s, x)])
      ensures dropped == old(dropped) + [(wire, x)]
    {
      dropped := dropped + [(wire, x)];
      model := model.(dropped := model.dropped + [(s, x)]);
    }

    /** Lines 96-100: the lowest number leaves the window. */
    method DropFirst()
      requires Valid() && count > 0
      modifies this`begin, this`count, this`model, this`dropped
      ensures Valid()
      ensures model == Spec.Evict(old(model), 1)
    {
      hide Pow2, Lt, Gt, Add, Spec.Occupied, Spec.Evict;
      ghost var q := model;
      var entry := GetEntry(begin, 0);
      Spec.EvictOne(q);
      if entry.isSet {
        dropped := dropped + [(begin, entry.user.value)];
      }
      AddOne(width, begin, q.begin);
      begin := Add(width, begin, 1);
      count := count - 1;
      model := Spec.Evict(q, 1);
      SlotsShift(q.begin, q.slots);
      assert model.slots == q.slots[1..] && model.begin == q.begin + 1;
    }

    /** Without its lowest number the window is in the same places. */
    lemma SlotsShift(b: int, slots: seq<Option<T>>)
      requires queue.Length == Cap() && slots != []
      requires forall i :: 0 <= i < |slots| ==> Slot(b + i) == slots[i]
      ensures forall i :: 0 <= i < |slots| - 1 ==> Slot(b + 1 + i) == slots[1..][i]
    {
      hide Slot;
      forall i | 0 <= i < |slots| - 1 ensures Slot(b + 1 + i) == slots[1..][i] {
        assert Slot(b + (i + 1)) == slots[i + 1];
        assert b + (i + 1) == b + 1 + i;
      }
    }

    /** Lines 93-107: drops from the front until `wire` fits or nothing is left. */
    method DropFront(end: nat, newEnd: nat, wire: nat, ghost s: int)
      requires Valid() && wire < Space(width)
      requires wire % Space(width) == s % Space(width)
      requires newEnd % Space(width) == (s + 1) % Space(width)
      requires end % Space(width) == (model.begin + count) % Space(width)
      requires Cap() <= s - model.begin <= Half(width) && s + 1 - model.begin - Cap() < Half(width)
      modifies this`begin, this`count, this`model, this`dropped
      ensures Valid()
      ensures model == Spec.MakeRoom(old(model), Cap(), s)
    {
      hide *;
      ghost var _ := CapDivides(width, sizeExp);
      ghost var q, k := model, s + 1 - model.begin - Cap();
      ghost var j: nat := 0;
      var totalEnd: nat := Add(width, end, queue.Length - count);
      RoomTest(width, end, q.begin, |q.slots|, j, Cap(), newEnd, s);
      Spec.EvictNothing(q);
      while count > 0 && Lt(width, totalEnd, newEnd)
        invariant Valid() && j <= |q.slots| && j <= k
        invariant model == Spec.Evict(q, j) && count == |q.slots| - j
        invariant Lt(width, totalEnd, newEnd) <==> j < k
        decreases count
      {
        DropFirst();
        Spec.EvictOneMore(q, j);
        j := j + 1;
        totalEnd := Add(width, end, queue.Length - count);
        RoomTest(width, end, q.begin, |q.slots|, j, Cap(), newEnd, s);
      }
      Spec.MakeRoomIsEvict(q, Cap(), s, j);
      if count == 0 {
        JumpTo(wire, s);
      }
    }

    /** Line 107: an empty window moves to the pushed number. */
    method JumpTo(wire: nat, ghost s: int)
      requires Valid() && count == 0 && wire < Space(width) && wire % Space(width) == s % Space(width)
      modifies this`begin, this`model
      ensures Valid()
      ensures model == old(model).(begin := s)
    {
      begin := wire;
      model := model.(begin := s);
    }

    /** Lines 114-115: the window grows by one number, whatever its slot held before. */
    method OpenSlot(end: nat)
      requires Valid() && count < Cap() && end % Space(width) == (model.begin + count) % Space(width)
      modifies this`count, this`model, queue
      ensures Valid()
      ensures model == old(model).(slots := old(model).slots + [None])
    {
      SameSlot(width, sizeExp, end, model.begin + count);
      count := count + 1;
      model := model.(slots := model.slots + [Slot(model.begin + (count - 1))]);
      var stale := queue[end % queue.Length];
      SetEntry(end, stale.(isSet := false), count - 1);
    }

    /**
     Lines 110-122: opens the window up to `wire` and stores the element. A window of one
     slot that ends exactly half the space before the new end stays as it is.
     */
    method MoveEnd(newEnd: nat, wire: nat, x: T, ghost s: int)
      requires Valid()
      requires wire % Space(width) == s % Space(width)
      requires newEnd % Space(width) == (s + 1) % Space(width)
      requires count <= s - model.begin < Cap() || Overwrites(width, sizeExp, count, s - model.begin)
      modifies this`count, this`model, queue
      ensures Valid()
      ensures model == if Overwrites(width, sizeExp, old(count), s - old(model).begin)
                       then old(model).(slots := [Some(x)]) else Spec.Append(old(model), s, x)
    {
      hide *;
      ghost var q := model;
      ghost var over := Overwrites(width, sizeExp, count, s - model.begin);
      OverwritesMeans(width, sizeExp, count, s - model.begin);
      ghost var _ := CapDivides(width, sizeExp);
      var end: nat := Add(width, begin, count);
      EndTest(width, begin, count, q.begin, newEnd, s);
      Spec.PadNothing(q.slots);
      while Lt(width, end, newEnd)
        invariant Valid() && |q.slots| <= count <= s + 1 - q.begin
        invariant over ==> count == |q.slots| && !Lt(width, end, newEnd)
        invariant model == q.(slots := Spec.Pad(q.slots, count))
        invariant end % Space(width) == (q.begin + count) % Space(width)
        invariant !over ==> (Lt(width, end, newEnd) <==> count < s + 1 - q.begin)
        decreases s + 1 - q.begin - count
      {
        Spec.PadOneMore(q.slots, count);
        OpenSlot(end);
        end := Add(width, begin, count);
        EndTest(width, begin, count, q.begin, newEnd, s);
      }
      SetEntry(wire, Entry(Some(x), true), if over then 0 else s - q.begin);
      if over {
        assert q.slots[0 := Some(x)] == [Some(x)];
      } else {
        Spec.AppendIsPad(q, s, x);
      }
    }

    /**
     Push behaves like the unwrapped push of the number near `begin` that `wire` stands
     for, unless the assertion fails, which happens exactly when AssertionFails says so, or
     the element waiting in the only slot is written over, which Overwrites says.
     */
    method Push(wire: nat, x: T) returns (aborted: bool)
      requires Valid() && wire < Space(width)
      modifies this, queue
      ensures Valid() && queue == old(queue)
      ensures aborted <==> AssertionFails(width, old(begin), old(count), wire)
      ensures aborted ==> model == old(model)
      ensures !aborted ==>
                model == Pushed(width, sizeExp, old(model), strategy, Unwrap(width, old(model).begin, wire), x)
    {
      hide Lt, Gt, Ge, Add, Slot, SameOnTheWire, Valid, Pow2, Unwrap, AssertionFails, Space, Half;
      hide Spec.Append, Overwrites;
      ghost var q, s := model, Unwrap(width, model.begin, wire);
      ghost var off := s - q.begin;
      ghost var _ := CapDivides(width, sizeExp);
      PushComparisons(width, begin, q.begin, count, Cap(), wire);
      OverwritesMeans(width, sizeExp, count, off);
      aborted := false;
      var end := Add(width, begin, count);
      if Ge(width, wire, begin) && Lt(width, wire, end) {
        var entry := GetEntry(wire, off);
        if entry.isSet {
          DropNew(wire, x, s);
        } else {
          SetEntry(wire, Entry(Some(x), true), off);
        }
        return;
      }
      if Lt(width, wire, begin) {
        DropNew(wire, x, s);
        return;
      }
      if !Ge(width, wire, end) {
        aborted := true;
        return;
      }
      NotAtHalf(width, begin, q.begin, count, wire);
      PushBeyond(end, wire, x, s);
    }

    /** Lines 87-124: a number at or after the end of the window. */
    method PushBeyond(end: nat, wire: nat, x: T, ghost s: int)
      requires Valid() && wire < Space(width) && wire % Space(width) == s % Space(width)
      requires end == Add(width, begin, count)
      requires count <= s - model.begin <= Half(width) && (s - model.begin == Half(width) ==> count > 0)
      modifies this, queue
      ensures Valid() && queue == old(queue)
      ensures model == Pushed(width, sizeExp, old(model), strategy, s, x)
    {
      hide *;
      ghost var q := model;
      ghost var over := Overwrites(width, sizeExp, count, s - model.begin);
      PushedBeyond(width, sizeExp, q, strategy, s, x);
      ghost var _ := CapDivides(width, sizeExp);
      OverwritesMeans(width, sizeExp, count, s - q.begin);
      var totalEnd := Add(width, end, queue.Length - count);
      var newEnd := Add(width, wire, 1);
      FullTest(width, begin, count, q.begin, Cap(), wire, s);
      if Lt(width, totalEnd, newEnd) {
        if strategy.DropEnd? {
          DropNew(wire, x, s);
          return;
        }
        DropFront(end, newEnd, wire, s);
        OverwritesMeans(width, sizeExp, count, s - model.begin);
      }
      ghost var m := model;
      assert m == if q.begin + Cap() <= s && !over then Spec.MakeRoom(q, Cap(), s) else q;
      MoveEnd(newEnd, wire, x, s);
      assert model == if over then m.(slots := [Some(x)]) else Spec.Append(m, s, x);
    }

    /** Pull takes the lowest number exactly when it is there. */
    method Pull() returns (pulled: bool, wire: nat, x: Option<T>)
      requires Valid()
      modifies this`begin, this`count, this`model
      ensures Valid()
      ensures pulled <==> Spec.CanPull(old(model))
      ensures pulled ==> model == Spec.Pull(old(model)) && x == Some(old(model).slots[0].value)
      ensures pulled ==> wire == old(begin) && wire % Space(width) == old(model).begin % Space(width)
      ensures !pulled ==> model == old(model) && begin == old(begin)
    {
      hide Lt, Gt, Add, Pow2, Space, SameOnTheWire, Slot;
      pulled, wire, x := false, 0, None;
      if count == 0 {
        return;
      }
      var entry := GetEntry(begin, 0);
      if !entry.isSet {
        return;
      }
      pulled, wire, x := true, begin, entry.user;
      StepBegin();
    }

    /** The window begins one number later. */
    method StepBegin()
      requires Valid() && Spec.CanPull(model)
      modifies this`begin, this`count, this`model
      ensures Valid() && model == Spec.Pull(old(model))
    {
      hide Lt, Gt, Pow2, SameOnTheWire, Slot;
      AddIsCongruent(width, begin, 1, model.begin, 1);
      begin := Add(width, begin, 1);
      count := count - 1;
      ghost var before := model;
      model := Spec.Pull(model);
      forall i | 0 <= i < count ensures Slot(model.begin + i) == model.slots[i] {
        assert Slot(before.begin + (i + 1)) == before.slots[i + 1];
      }
    }

    /** Fini hands everything still waiting to the drop callback, in order. */
    method Fini()
      requires Valid()
      modifies this`dropped
      ensures SameOnTheWire(dropped, old(model).dropped + Spec.Occupied(old(model).begin, old(model).slots))
    {
      hide Lt, Gt, Add, Pow2, Slot;
      ghost var rest := [];
      var calls := [];
      var i := 0;
      assert model.slots[..0] == [];
      while i < count
        invariant 0 <= i <= count && dropped == old(dropped)
        invariant rest == Spec.Occupied(model.begin, model.slots[..i])
        invariant SameOnTheWire(calls, rest)
      {
        AddIsCongruent(width, begin, i, model.begin, i);
        var wire := Add(width, begin, i);
        var entry := GetEntry(wire, i);
        assert model.slots[..i + 1][..i] == model.slots[..i];
        if entry.isSet {
          calls := calls + [(wire, entry.user.value)];
          rest := rest + [(model.begin + i, entry.user.value)];
        }
        i := i + 1;
      }
      assert model.slots[..i] == model.slots && rest == Spec.Occupied(model.begin, model.slots);
      dropped := dropped + calls;
    }
  }
}
