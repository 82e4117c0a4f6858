/** What the reorder queue guarantees over whole runs of pushes and pulls. */
module ReorderRuns {
  import opened Common
  import opened SeqNum
  import opened ReorderSpec
  import Ring = ReorderQueue

  datatype Op<T> = PushOp(s: int, x: T) | PullOp

  function Apply<T>(q: Queue<T>, cap: nat, strategy: Strategy, op: Op<T>): Queue<T>
    requires 0 < cap && |q.slots| <= cap
  {
    match op
    case PushOp(s, x) => Push(q, cap, strategy, s, x)
    case PullOp => if CanPull(q) then Pull(q) else q
  }

  lemma ApplyKeepsCap<T>(q: Queue<T>, cap: nat, strategy: Strategy, op: Op<T>)
    requires 0 < cap && |q.slots| <= cap
    ensures |Apply(q, cap, strategy, op).slots| <= cap
  {
  }

  /** The queue after a run that starts empty at number `start`. */
  function Run<T>(start: int, cap: nat, strategy: Strategy, ops: seq<Op<T>>): (q: Queue<T>)
    requires 0 < cap
    ensures |q.slots| <= cap
  {
    if ops == [] then Empty(start)
    else
      var q := Run(start, cap, strategy, ops[..|ops| - 1]);
      ApplyKeepsCap(q, cap, strategy, ops[|ops| - 1]);
      Apply(q, cap, strategy, ops[|ops| - 1])
  }

  /** Everything a run pushed, with its number. */
  ghost function Pushed<T>(ops: seq<Op<T>>): multiset<(int, T)> {
    if ops == [] then multiset{}
    else
      Pushed(ops[..|ops| - 1]) +
      (match ops[|ops| - 1]
       case PushOp(s, x) => multiset{(s, x)}
       case PullOp => multiset{})
  }

  /** Where a queue has put what it was given. */
  ghost function Held<T>(q: Queue<T>): multiset<(int, T)> {
    multiset(Occupied(q.begin, q.slots)) + multiset(q.dropped) + multiset(q.pulled)
  }

  lemma {:induction false} PadHoldsNothing<T>(begin: int, slots: seq<Option<T>>, n: nat)
    requires |slots| <= n
    ensures Occupied(begin, Pad(slots, n)) == Occupied(begin, slots)
    decreases n
  {
    if n > |slots| {
      PadHoldsNothing(begin, slots, n - 1);
      assert Pad(slots, n)[..n - 1] == Pad(slots, n - 1);
    } else {
      assert Pad(slots, n) == slots;
    }
  }

  lemma OccupiedLast<T>(begin: int, slots: seq<Option<T>>, o: Option<T>)
    ensures Occupied(begin, slots + [o]) ==
            Occupied(begin, slots) + (if o.Some? then [(begin + |slots|, o.value)] else [])
  {
    assert (slots + [o])[..|slots|] == slots;
  }

  lemma StoreHolds<T>(begin: int, slots: seq<Option<T>>, off: nat, x: T)
    requires off < |slots| && slots[off].None?
    ensures multiset(Occupied(begin, slots[off := Some(x)])) ==
            multiset(Occupied(begin, slots)) + multiset{(begin + off, x)}
  {
    hide Occupied;
    var a, b := slots[..off], slots[off + 1..];
    OccupiedSplit(begin, a + [None], b);
    OccupiedSplit(begin, a + [Some(x)], b);
    assert slots == a + [None] + b && slots[off := Some(x)] == a + [Some(x)] + b;
    OccupiedLast(begin, a, None);
    OccupiedLast(begin, a, Some(x));
    assert Occupied(begin, a) + [] == Occupied(begin, a);
  }

  lemma EvictHolds<T>(q: Queue<T>, k: nat)
    requires k <= |q.slots|
    ensures Held(Evict(q, k)) == Held(q)
  {
    hide Occupied;
    OccupiedSplit(q.begin, q.slots[..k], q.slots[k..]);
    assert q.slots[..k] + q.slots[k..] == q.slots;
  }

  lemma AppendHolds<T>(q: Queue<T>, s: int, x: T)
    requires q.begin + |q.slots| <= s
    ensures Held(Append(q, s, x)) == Held(q) + multiset{(s, x)}
  {
    hide Occupied;
    PadHoldsNothing(q.begin, q.slots, s - q.begin);
    OccupiedLast(q.begin, Pad(q.slots, s - q.begin), Some(x));
  }

  lemma MakeRoomHolds<T>(q: Queue<T>, cap: nat, s: int)
    requires q.begin + cap <= s
    ensures Held(MakeRoom(q, cap, s)) == Held(q)
  {
    var k := s + 1 - q.begin - cap;
    if k < |q.slots| {
      EvictHolds(q, k);
    } else {
      EvictHolds(q, |q.slots|);
    }
  }

  lemma DropHolds<T>(q: Queue<T>, s: int, x: T)
    ensures Held(q.(dropped := q.dropped + [(s, x)])) == Held(q) + multiset{(s, x)}
  {
    hide Occupied;
  }

  lemma InsertHolds<T>(q: Queue<T>, off: nat, x: T)
    requires off < |q.slots| && q.slots[off].None?
    ensures Held(q.(slots := q.slots[off := Some(x)])) == Held(q) + multiset{(q.begin + off, x)}
  {
    hide Occupied;
    StoreHolds(q.begin, q.slots, off, x);
  }

  lemma PushHolds<T>(q: Queue<T>, cap: nat, strategy: Strategy, s: int, x: T)
    requires 0 < cap && |q.slots| <= cap
    ensures Held(Push(q, cap, strategy, s, x)) == Held(q) + multiset{(s, x)}
  {
    hide Held, Occupied, Append;
    var off := s - q.begin;
    if off < 0 || (off < |q.slots| && q.slots[off].Some?) || (off >= cap && strategy.DropEnd?) {
      DropHolds(q, s, x);
    } else if off < |q.slots| {
      InsertHolds(q, off, x);
    } else if off < cap {
      AppendHolds(q, s, x);
    } else {
      MakeRoomHolds(q, cap, s);
      AppendHolds(MakeRoom(q, cap, s), s, x);
    }
  }

  /**
   Whatever is pushed stays accounted for, except when it is written over the element in
   the only slot, which then is nowhere.
   */
  lemma ConservedUnlessOverwritten<T>(w: Width, e: nat, q: Queue<T>, strategy: Strategy, s: int, x: T)
    requires |q.slots| <= Pow2(e)
    ensures Held(Ring.Pushed(w, e, q, strategy, s, x)) == Held(q) + multiset{(s, x)}
            <==> !Ring.Overwrites(w, e, |q.slots|, s - q.begin)
  {
    hide Held, Pow2;
    if Ring.Overwrites(w, e, |q.slots|, s - q.begin) {
      OverwriteCounts(q, s, x);
    } else {
      PushHolds(q, Pow2(e), strategy, s, x);
    }
  }

  lemma OverwriteCounts<T>(q: Queue<T>, s: int, x: T)
    requires |q.slots| == 1 && s != q.begin
    ensures Held(q.(slots := [Some(x)])) != Held(q) + multiset{(s, x)}
  {
    OccupiedLast(q.begin, [], Some(x));
    OccupiedNone<T>(q.begin);
    assert [] + [Some(x)] == [Some(x)];
    var o := Occupied(q.begin, [Some(x)]);
    assert o == [(q.begin, x)];
    assert (Held(q) + multiset{(s, x)})[(s, x)] == Held(q)[(s, x)] + 1;
    assert Held(q.(slots := [Some(x)]))[(s, x)] == multiset(q.dropped)[(s, x)] + multiset(q.pulled)[(s, x)];
  }

  lemma OccupiedNone<T>(begin: int)
    ensures Occupied<T>(begin, []) == []
  {
  }

  lemma PullHolds<T>(q: Queue<T>)
    requires CanPull(q)
    ensures Held(Pull(q)) == Held(q)
  {
    hide Occupied;
    var x, rest := q.slots[0].value, q.slots[1..];
    OccupiedSplit(q.begin, q.slots[..1], rest);
    assert q.slots[..1] + rest == q.slots && [] + [q.slots[0]] == q.slots[..1];
    OccupiedLast(q.begin, [], q.slots[0]);
    OccupiedNone<T>(q.begin);
    var first, o := (q.begin, x), Occupied(q.begin + 1, rest);
    assert Occupied(q.begin, q.slots) == [first] + o;
    MultisetOfConcat([first], o);
    MultisetOfConcat(q.pulled, [first]);
    MoveOne(multiset([first]), multiset(o), multiset(q.dropped), multiset(q.pulled));
  }

  lemma MoveOne<E>(x: multiset<E>, o: multiset<E>, dropped: multiset<E>, pulled: multiset<E>)
    ensures (x + o) + dropped + pulled == o + dropped + (pulled + x)
  {
  }

  lemma MultisetOfConcat<E>(a: seq<E>, b: seq<E>)
    ensures multiset(a + b) == multiset(a) + multiset(b)
  {
  }

  /**
   Conservation: after every run, with either strategy, what was pushed is what is
   waiting, was dropped or was pulled, each element in exactly one of these places.
   */
  lemma {:induction false} Conservation<T>(start: int, cap: nat, strategy: Strategy, ops: seq<Op<T>>)
    requires 0 < cap
    ensures Held(Run(start, cap, strategy, ops)) == Pushed(ops)
    decreases |ops|
  {
    if ops != [] {
      var before, op := ops[..|ops| - 1], ops[|ops| - 1];
      Conservation(start, cap, strategy, before);
      var q := Run(start, cap, strategy, before);
      match op
      case PushOp(s, x) => PushHolds(q, cap, strategy, s, x);
      case PullOp => if CanPull(q) { PullHolds(q); }
    }
  }

  /** Under the end-dropping strategy the pulled numbers are start, start + 1, start + 2, ... */
  lemma {:induction false} PulledConsecutively<T>(start: int, cap: nat, ops: seq<Op<T>>)
    requires 0 < cap
    ensures var q := Run(start, cap, DropEnd, ops);
            q.begin == start + |q.pulled| && forall i :: 0 <= i < |q.pulled| ==> q.pulled[i].0 == start + i
    decreases |ops|
  {
    if ops != [] {
      PulledConsecutively(start, cap, ops[..|ops| - 1]);
    }
  }

  /** Under either strategy they increase strictly and lie before the window. */
  lemma {:induction false} PulledInOrder<T>(start: int, cap: nat, strategy: Strategy, ops: seq<Op<T>>)
    requires 0 < cap
    ensures var q := Run(start, cap, strategy, ops);
            && start <= q.begin
            && (forall i :: 0 <= i < |q.pulled| ==> start <= q.pulled[i].0 < q.begin)
            && (forall i, j :: 0 <= i < j < |q.pulled| ==> q.pulled[i].0 < q.pulled[j].0)
    decreases |ops|
  {
    if ops != [] {
      PulledInOrder(start, cap, strategy, ops[..|ops| - 1]);
    }
  }

  /**
   A 16-bit queue aborts on the second of two numbers pushed in order across 65535,
   because its end is 65536 there; a 32-bit queue in the same position goes on.
   */
  method PushAcrossTheWrap<T>(width: Width, x: T, y: T) returns (aborted: bool)
    ensures aborted <==> width.W16?
  {
    hide Pow2, Unwrap, Ring.AssertionFails, Ring.Pushed;
    var last := Space(width) - 1;
    var q := new Ring.Queue<T>(width, 8, last, DropEnd);
    LastIsFirst(width, x);
    aborted := q.Push(last, x);
    if !aborted {
      NextWraps(width, q.begin);
      aborted := q.Push(0, y);
    }
  }

  lemma LastIsFirst<T>(width: Width, x: T)
    ensures var last := Space(width) - 1;
            && Unwrap(width, last, last) == last && !Ring.AssertionFails(width, last, 0, last)
            && Ring.Pushed(width, 8, Empty(last), DropEnd, last, x) == Queue(last, [Some(x)], [], [])
  {
    var slots: seq<Option<T>> := [];
    PadNothing(slots);
    assert slots + [Some(x)] == [Some(x)];
  }

  lemma NextWraps(width: Width, begin: nat)
    requires begin % Space(width) == Space(width) - 1 && begin <= Space(width)
    ensures Ring.AssertionFails(width, begin, 1, 0) <==> width.W16?
  {
  }

  /** A number half the space from the start of an empty queue aborts, in either width. */
  method PushHalfFromEmpty<T>(width: Width, x: T) returns (aborted: bool)
    ensures aborted
  {
    hide Pow2, Unwrap, Ring.Pushed;
    var q := new Ring.Queue<T>(width, 8, 0, DropEnd);
    aborted := q.Push(Half(width), x);
  }

  lemma FirstPush<T>(width: Width, strategy: Strategy, x: T)
    ensures Unwrap(width, 0, 0) == 0 && !Ring.AssertionFails(width, 0, 0, 0)
    ensures Ring.Pushed(width, 0, Empty(0), strategy, 0, x) == Queue(0, [Some(x)], [], [])
  {
    var slots: seq<Option<T>> := [];
    PadNothing(slots);
    assert slots + [Some(x)] == [Some(x)];
  }

  lemma SecondPush<T>(width: Width, begin: nat, strategy: Strategy, x: T, y: T)
    requires begin % Space(width) == 0
    ensures Unwrap(width, 0, Half(width)) == Half(width) && !Ring.AssertionFails(width, begin, 1, Half(width))
    ensures Ring.Pushed(width, 0, Queue(0, [Some(x)], [], []), strategy, Half(width), y) ==
            Queue(0, [Some(y)], [], [])
  {
  }

  /**
   In a queue of one slot, of either width and strategy, the element with number 0 is gone
   without having been dropped once the number half the space ahead arrives.
   */
  method PushHalfAhead<T>(width: Width, strategy: Strategy, x: T, y: T) returns (q: Ring.Queue<T>)
    ensures fresh(q) && q.model == Queue(0, [Some(y)], [], []) && q.dropped == []
  {
    hide Pow2, Pushed, Unwrap, Ring.AssertionFails;
    q := new Ring.Queue<T>(width, 0, 0, strategy);
    FirstPush(width, strategy, x);
    var aborted := q.Push(0, x);
    assert !aborted && q.model == Queue(0, [Some(x)], [], []) && q.count == 1;
    SecondPush(width, q.begin, strategy, x, y);
    aborted := q.Push(Half(width), y);
  }
}
