/**
 The receive pool and the packet-process queue of lib/src/takion.c. A step is what a thread
 does while it holds the mutex; each received packet has a serial number.
 */
module RecvPoolSpec {
  import opened Common

  const QUEUE_MAX := 512

  datatype Item<E> = Item(entry: E, serial: nat)

  /** The receive thread has nothing, waits for data with or without a pooled entry, or has a packet. */
  datatype Receiver<E> = Idle | Waiting(entry: Option<E>) | Holding(item: Item<E>)

  datatype Pool<E(==)> = Pool(pooled: set<E>, free: seq<E>, queue: seq<Item<E>>, receiver: Receiver<E>,
                              processor: Option<Item<E>>, received: nat, processed: seq<nat>, lost: seq<nat>)

  datatype Step<E> =
    | Take
    | Receive(wrapper: E)
    | Fail
    | Put
    | Get
    | Done

  function Entries<E>(items: seq<Item<E>>): (entries: seq<E>)
    ensures |entries| == |items| && forall i :: 0 <= i < |items| ==> entries[i] == items[i].entry
  {
    seq(|items|, i requires 0 <= i < |items| => items[i].entry)
  }

  function Serials<E>(items: seq<Item<E>>): (serials: seq<nat>)
    ensures |serials| == |items| && forall i :: 0 <= i < |items| ==> serials[i] == items[i].serial
  {
    seq(|items|, i requires 0 <= i < |items| => items[i].serial)
  }

  function InHand<E>(r: Receiver<E>): seq<Item<E>> {
    if r.Holding? then [r.item] else []
  }

  function InProcess<E>(p: Option<Item<E>>): seq<Item<E>> {
    if p.Some? then [p.value] else []
  }

  function WaitingEntry<E>(r: Receiver<E>): seq<E> {
    if r.Waiting? && r.entry.Some? then [r.entry.value] else []
  }

  /** Where the entries are: the free list, the queue and the two threads' hands. */
  function Places<E>(s: Pool<E>): multiset<E> {
    multiset(s.free) + multiset(Entries(s.queue)) + multiset(Entries(InProcess(s.processor)))
    + multiset(Entries(InHand(s.receiver))) + multiset(WaitingEntry(s.receiver))
  }

  /** The packets that nobody has begun to process, oldest first. */
  function Pending<E>(s: Pool<E>): seq<nat> {
    Serials(s.queue) + Serials(InHand(s.receiver))
  }

  /** The packets on their way, oldest first, behind those already processed. */
  function Order<E>(s: Pool<E>): seq<nat> {
    s.processed + Serials(InProcess(s.processor)) + Pending(s)
  }

  /** Every entry is in one place, and every pooled one in exactly one; the free list has only pooled ones. */
  predicate Placed<E>(s: Pool<E>) {
    && (forall e :: e in Places(s) ==> Places(s)[e] == 1)
    && (forall e :: e in s.pooled ==> e in Places(s))
    && (forall e :: e in s.free ==> e in s.pooled)
    && (forall e :: e in WaitingEntry(s.receiver) ==> e in s.pooled)
  }

  /** Order is kept, and each packet received is lost or on its way or processed, but not two of these. */
  predicate Ordered<E>(s: Pool<E>) {
    && Increasing(Order(s)) && Increasing(s.lost)
    && (forall n :: n in Order(s) ==> n < s.received && n !in s.lost)
    && (forall n :: n in s.lost ==> n < s.received)
    && |Order(s)| + |s.lost| == s.received
    && (forall n, m :: n in s.lost && m in Pending(s) ==> n < m)
  }

  predicate Inv<E>(s: Pool<E>) {
    Placed(s) && Ordered(s) && |s.queue| <= QUEUE_MAX
  }

  function Init<E>(free: seq<E>): Pool<E> {
    Pool((set e | e in free), free, [], Idle, None, 0, [], [])
  }

  lemma InitHolds<E>(free: seq<E>)
    requires forall i, j :: 0 <= i < j < |free| ==> free[i] != free[j]
    ensures Inv(Init(free))
  {
    var s := Init(free);
    assert Entries(s.queue) == [];
    DistinctMultiset(free);
  }

  lemma {:induction false} DistinctMultiset<E>(s: seq<E>)
    requires forall i, j :: 0 <= i < j < |s| ==> s[i] != s[j]
    ensures forall e :: e in multiset(s) ==> multiset(s)[e] == 1
  {
    if s != [] {
      var init, last := s[..|s| - 1], s[|s| - 1];
      assert s == init + [last];
      DistinctMultiset(init);
      assert last !in init;
    }
  }

  predicate Enabled<E>(s: Pool<E>, step: Step<E>) {
    match step
    case Take => s.receiver.Idle?
    case Receive(wrapper) =>
      s.receiver.Waiting? && (s.receiver.entry.None? ==> wrapper !in Places(s) && wrapper !in s.pooled)
    case Fail => s.receiver.Waiting?
    case Put => s.receiver.Holding?
    case Get => s.processor.None? && s.queue != []
    case Done => s.processor.Some?
  }

  /** Only pooled entries go back to the free list. */
  function Release<E>(s: Pool<E>, entry: E): Pool<E> {
    if entry in s.pooled then s.(free := [entry] + s.free) else s
  }

  /** A full queue loses its oldest packet. */
  function DropOldest<E>(s: Pool<E>): Pool<E>
    requires s.queue != []
  {
    Release(s.(queue := s.queue[1..], lost := s.lost + [s.queue[0].serial]), s.queue[0].entry)
  }

  function Append<E>(s: Pool<E>): Pool<E>
    requires s.receiver.Holding?
  {
    s.(queue := s.queue + [s.receiver.item], receiver := Idle)
  }

  function Next<E>(s: Pool<E>, step: Step<E>): Pool<E>
    requires Enabled(s, step)
  {
    match step
    case Take =>
      if s.free == [] then s.(receiver := Waiting(None))
      else s.(receiver := Waiting(Some(s.free[0])), free := s.free[1..])
    case Receive(wrapper) =>
      var entry := if s.receiver.entry.Some? then s.receiver.entry.value else wrapper;
      s.(receiver := Holding(Item(entry, s.received)), received := s.received + 1)
    case Fail =>
      if s.receiver.entry.Some? then Release(s.(receiver := Idle), s.receiver.entry.value) else s.(receiver := Idle)
    case Put => Append(if |s.queue| >= QUEUE_MAX then DropOldest(s) else s)
    case Get => s.(processor := Some(s.queue[0]), queue := s.queue[1..])
    case Done =>
      Release(s.(processor := None, processed := s.processed + [s.processor.value.serial]), s.processor.value.entry)
  }

  lemma FirstEntry<E>(items: seq<Item<E>>)
    requires items != []
    ensures Entries(items) == [items[0].entry] + Entries(items[1..])
    ensures Serials(items) == [items[0].serial] + Serials(items[1..])
  {
  }

  lemma OrderedSame<E>(s: Pool<E>, t: Pool<E>)
    requires Ordered(s) && Order(t) == Order(s) && t.lost == s.lost && t.received == s.received
    requires forall m :: m in Pending(t) ==> m in Pending(s)
    ensures Ordered(t)
  {
    hide Order, Pending;
  }

  lemma PlacedSame<E>(s: Pool<E>, t: Pool<E>)
    requires Placed(s) && Places(t) == Places(s) && t.pooled == s.pooled
    requires forall e :: e in t.free ==> e in t.pooled
    requires forall e :: e in WaitingEntry(t.receiver) ==> e in t.pooled
    ensures Placed(t)
  {
    hide Places;
  }

  lemma TakeKeepsInv<E>(s: Pool<E>)
    requires Inv(s) && Enabled(s, Take)
    ensures Inv(Next(s, Take))
  {
    hide Placed, Ordered;
    var t := Next(s, Take);
    TakePlaces(s);
    assert Order(t) == Order(s) && Pending(t) == Pending(s);
    hide Order, Pending, Places;
    assert Placed(t) by { FreeIsPooled(s); PlacedSame(s, t); }
    OrderedSame(s, t);
  }

  lemma TakePlaces<E>(s: Pool<E>)
    requires Enabled(s, Take)
    ensures Places(Next(s, Take)) == Places(s)
  {
    hide Entries;
    if s.free != [] {
      assert s.free == [s.free[0]] + s.free[1..];
      FirstOf(s.free[0], s.free[1..]);
    }
  }

  lemma FreeIsPooled<E>(s: Pool<E>)
    requires Placed(s)
    ensures forall e :: e in s.free ==> e in s.pooled
    ensures forall e :: e in WaitingEntry(s.receiver) ==> e in s.pooled
  {
  }

  lemma ReceiveKeepsInv<E>(s: Pool<E>, wrapper: E)
    requires Inv(s) && Enabled(s, Receive(wrapper))
    ensures Inv(Next(s, Receive(wrapper)))
  {
    hide Placed, Ordered;
    ReceivePlaced(s, wrapper);
    ReceiveOrdered(s, wrapper);
  }

  lemma ReceivePlaced<E>(s: Pool<E>, wrapper: E)
    requires Placed(s) && Enabled(s, Receive(wrapper))
    ensures Placed(Next(s, Receive(wrapper)))
  {
    var t := Next(s, Receive(wrapper));
    ReceivePlaces(s, wrapper);
    hide Places;
  }

  lemma ReceivePlaces<E>(s: Pool<E>, wrapper: E)
    requires Enabled(s, Receive(wrapper))
    ensures var own := if s.receiver.entry.Some? then multiset{} else multiset{wrapper};
            Places(Next(s, Receive(wrapper))) == Places(s) + own
  {
    var item := Next(s, Receive(wrapper)).receiver.item;
    assert Entries([item]) == [item.entry];
    assert WaitingEntry(s.receiver) == if s.receiver.entry.Some? then [item.entry] else [];
  }

  lemma ReceiveOrdered<E>(s: Pool<E>, wrapper: E)
    requires Ordered(s) && Enabled(s, Receive(wrapper))
    ensures Ordered(Next(s, Receive(wrapper)))
  {
    var t := Next(s, Receive(wrapper));
    assert Serials([t.receiver.item]) == [s.received];
    assert Order(t) == Order(s) + [s.received] && Pending(t) == Pending(s) + [s.received];
    hide Order, Pending;
    assert forall i :: 0 <= i < |Order(s)| ==> Order(s)[i] in Order(s);
  }

  lemma ReleasePlaces<E>(s: Pool<E>, entry: E)
    ensures Places(Release(s, entry)) == Places(s) + if entry in s.pooled then multiset{entry} else multiset{}
    ensures Order(Release(s, entry)) == Order(s)
  {
  }

  /** Releasing an entry that has just left its place. */
  lemma ReleasePlaced<E>(s: Pool<E>, u: Pool<E>, entry: E)
    requires Placed(s) && Places(s) == Places(u) + multiset{entry}
    requires u.pooled == s.pooled && u.free == s.free && (u.receiver == s.receiver || u.receiver == Idle)
    ensures Placed(Release(u, entry))
  {
    ReleasePlaces(u, entry);
    var t := Release(u, entry);
    hide Places;
    forall e | e in Places(t) ensures Places(t)[e] == 1 {
      assert e in Places(s);
    }
    forall e | e in t.pooled ensures e in Places(t) {
      assert e in Places(s);
    }
    assert entry in Places(s);
  }

  lemma FailKeepsInv<E>(s: Pool<E>)
    requires Inv(s) && Enabled(s, Fail)
    ensures Inv(Next(s, Fail))
  {
    hide Placed, Ordered, Places, Order, Pending;
    var t, u := Next(s, Fail), s.(receiver := Idle);
    FreeIsPooled(s);
    FailPlaces(s);
    if s.receiver.entry.Some? {
      ReleasePlaced(s, u, s.receiver.entry.value);
    } else {
      PlacedSame(s, u);
    }
    FailOrder(s);
    OrderedSame(s, t);
  }

  lemma FailPlaces<E>(s: Pool<E>)
    requires Enabled(s, Fail)
    ensures Places(s) == Places(s.(receiver := Idle)) + multiset(WaitingEntry(s.receiver))
  {
  }

  lemma FailOrder<E>(s: Pool<E>)
    requires Enabled(s, Fail)
    ensures Order(Next(s, Fail)) == Order(s) && Pending(Next(s, Fail)) == Pending(s)
  {
  }

  lemma DropKeepsInv<E>(s: Pool<E>)
    requires Inv(s) && s.queue != []
    ensures Inv(DropOldest(s))
  {
    hide Placed, Ordered, Increasing;
    var first := s.queue[0];
    var u := s.(queue := s.queue[1..], lost := s.lost + [first.serial]);
    QueuePlaces(s);
    ReleasePlaced(s, u, first.entry);
    DropOrdered(s);
    ReleaseOrdered(u, first.entry);
  }

  lemma ReleaseOrdered<E>(u: Pool<E>, entry: E)
    requires Ordered(u)
    ensures Ordered(Release(u, entry))
  {
    OrderedSame(u, Release(u, entry));
  }

  lemma QueuePlaces<E>(s: Pool<E>)
    requires s.queue != []
    ensures var u := s.(queue := s.queue[1..], lost := s.lost + [s.queue[0].serial]);
            Places(s) == Places(u) + multiset{s.queue[0].entry}
  {
    FirstEntry(s.queue);
  }

  /** Where the oldest queued packet stands in the order. */
  lemma QueueInOrder<E>(s: Pool<E>)
    requires s.queue != []
    ensures var rest, before := s.(queue := s.queue[1..]), s.processed + Serials(InProcess(s.processor));
            && Pending(s) == [s.queue[0].serial] + Pending(rest)
            && Order(s) == before + [s.queue[0].serial] + Pending(rest)
            && Order(rest) == before + Pending(rest)
  {
    FirstEntry(s.queue);
    hide Serials;
  }

  /** The oldest queued packet is lost: it leaves the order and follows those lost before. */
  lemma DropOrdered<E>(s: Pool<E>)
    requires Ordered(s) && s.queue != []
    ensures Ordered(s.(queue := s.queue[1..], lost := s.lost + [s.queue[0].serial]))
  {
    var first, rest := s.queue[0].serial, s.(queue := s.queue[1..]);
    var u := rest.(lost := s.lost + [first]);
    QueueInOrder(s);
    assert Order(u) == Order(rest) && Pending(u) == Pending(rest);
    hide Order, Pending, Serials, Entries, InProcess, InHand, Increasing;
    RemoveMiddle(s.processed + Serials(InProcess(s.processor)), first, Pending(rest));
    assert first in Order(s) && first in Pending(s);
    assert forall n :: n in Order(u) ==> n in Order(s);
    assert forall n :: n in Pending(u) ==> n in Pending(s);
    IncreasingMore(s.lost, first);
  }

  lemma IncreasingMore(a: seq<nat>, x: nat)
    requires Increasing(a) && forall n :: n in a ==> n < x
    ensures Increasing(a + [x])
  {
    assert forall i :: 0 <= i < |a| ==> a[i] in a;
  }

  lemma RemoveMiddle(a: seq<nat>, x: nat, b: seq<nat>)
    requires Increasing(a + [x] + b)
    ensures Increasing(a + b) && x !in a + b
    ensures forall n :: n in b ==> x < n
  {
    var s, t := a + [x] + b, a + b;
    forall i, j | 0 <= i < j < |t| ensures t[i] < t[j] {
      var k, l := if i < |a| then i else i + 1, if j < |a| then j else j + 1;
      assert t[i] == s[k] && t[j] == s[l];
    }
    assert s[|a|] == x;
    forall i | 0 <= i < |t| ensures t[i] != x {
      var k := if i < |a| then i else i + 1;
      assert t[i] == s[k];
    }
    forall j | 0 <= j < |b| ensures x < b[j] {
      assert s[|a| + 1 + j] == b[j];
    }
  }

  lemma AppendKeepsInv<E>(s: Pool<E>)
    requires Inv(s) && s.receiver.Holding? && |s.queue| < QUEUE_MAX
    ensures Inv(Append(s))
  {
    hide Placed, Ordered, Places, Order, Pending;
    var t := Append(s);
    AppendPlaces(s);
    AppendOrder(s);
    FreeIsPooled(s);
    PlacedSame(s, t);
    OrderedSame(s, t);
  }

  lemma AppendPlaces<E>(s: Pool<E>)
    requires s.receiver.Holding?
    ensures Places(Append(s)) == Places(s)
  {
    var t, item := Append(s), s.receiver.item;
    assert Entries<E>([]) == [] && Entries([item]) == [item.entry];
    assert Entries(t.queue) == Entries(s.queue) + [item.entry];
    hide Entries;
    assert multiset(Entries(s.queue) + [item.entry]) == multiset(Entries(s.queue)) + multiset{item.entry};
  }

  lemma AppendOrder<E>(s: Pool<E>)
    requires s.receiver.Holding?
    ensures Pending(Append(s)) == Pending(s) && Order(Append(s)) == Order(s)
  {
    var t, item := Append(s), s.receiver.item;
    assert Serials(t.queue) == Serials(s.queue) + [item.serial] && Serials([item]) == [item.serial];
    assert Pending(t) == Pending(s);
    hide Pending;
  }

  lemma GetKeepsInv<E>(s: Pool<E>)
    requires Inv(s) && Enabled(s, Get)
    ensures Inv(Next(s, Get))
  {
    hide Placed, Ordered, Places, Order, Pending;
    var t := Next(s, Get);
    GetPlaces(s);
    GetOrder(s);
    FreeIsPooled(s);
    PlacedSame(s, t);
    OrderedSame(s, t);
  }

  lemma GetPlaces<E>(s: Pool<E>)
    requires Enabled(s, Get)
    ensures Places(Next(s, Get)) == Places(s)
  {
    TakenPlaces(s);
    QueuedPlaces(s);
    hide Places;
  }

  /** The places with the first queued entry apart from the others. */
  function Apart<E>(s: Pool<E>): multiset<E>
    requires s.queue != []
  {
    multiset(s.free) + multiset(Entries(s.queue[1..])) + multiset{s.queue[0].entry}
    + multiset(Entries(InHand(s.receiver))) + multiset(WaitingEntry(s.receiver))
  }

  lemma TakenPlaces<E>(s: Pool<E>)
    requires Enabled(s, Get)
    ensures Places(Next(s, Get)) == Apart(s)
  {
    assert Entries([s.queue[0]]) == [s.queue[0].entry];
  }

  lemma QueuedPlaces<E>(s: Pool<E>)
    requires Enabled(s, Get)
    ensures Places(s) == Apart(s)
  {
    hide Entries, Places, Apart;
    FirstOf(s.queue[0].entry, Entries(s.queue[1..]));
    FirstEntry(s.queue);
    SplitPlaces(s, multiset{s.queue[0].entry}, multiset(Entries(s.queue[1..])));
  }

  lemma SplitPlaces<E>(s: Pool<E>, x: multiset<E>, rest: multiset<E>)
    requires s.processor.None? && s.queue != [] && multiset(Entries(s.queue)) == x + rest
    requires x == multiset{s.queue[0].entry} && rest == multiset(Entries(s.queue[1..]))
    ensures Places(s) == Apart(s)
  {
    assert Entries<E>([]) == [];
    hide Entries;
  }

  lemma FirstOf<E>(x: E, rest: seq<E>)
    ensures multiset([x] + rest) == multiset{x} + multiset(rest)
  {
  }

  lemma GetOrder<E>(s: Pool<E>)
    requires Enabled(s, Get)
    ensures Order(Next(s, Get)) == Order(s)
    ensures forall m :: m in Pending(Next(s, Get)) ==> m in Pending(s)
  {
    var t, rest := Next(s, Get), s.(queue := s.queue[1..]);
    assert Serials(InProcess(t.processor)) == [s.queue[0].serial] && Serials(InProcess(s.processor)) == [];
    QueueInOrder(s);
    assert Pending(t) == Pending(rest);
    hide Pending, Serials;
  }

  lemma DoneKeepsInv<E>(s: Pool<E>)
    requires Inv(s) && Enabled(s, Done)
    ensures Inv(Next(s, Done))
  {
    hide Placed, Ordered, Places, Order, Pending;
    var item := s.processor.value;
    var u := s.(processor := None, processed := s.processed + [item.serial]);
    DonePlaces(s);
    ReleasePlaced(s, u, item.entry);
    OrderedSame(s, u);
    ReleaseOrdered(u, item.entry);
  }

  lemma DonePlaces<E>(s: Pool<E>)
    requires s.processor.Some?
    ensures var u := s.(processor := None, processed := s.processed + [s.processor.value.serial]);
            && Places(s) == Places(u) + multiset{s.processor.value.entry}
            && Order(u) == Order(s) && Pending(u) == Pending(s)
  {
    var item := s.processor.value;
    assert Entries([item]) == [item.entry] && Serials([item]) == [item.serial];
  }

  lemma StepKeepsInv<E>(s: Pool<E>, step: Step<E>)
    requires Inv(s) && Enabled(s, step)
    ensures Inv(Next(s, step))
  {
    hide Inv;
    match step
    case Take => TakeKeepsInv(s);
    case Receive(wrapper) => ReceiveKeepsInv(s, wrapper);
    case Fail => FailKeepsInv(s);
    case Put => PutKeepsInv(s);
    case Get => GetKeepsInv(s);
    case Done => DoneKeepsInv(s);
  }

  lemma PutKeepsInv<E>(s: Pool<E>)
    requires Inv(s) && Enabled(s, Put)
    ensures Inv(Next(s, Put))
  {
    hide Placed, Ordered;
    if |s.queue| >= QUEUE_MAX {
      DropKeepsInv(s);
      AppendKeepsInv(DropOldest(s));
    } else {
      AppendKeepsInv(s);
    }
  }

  /** Every interleaving of the two threads; impossible steps are skipped. */
  function Run<E>(s: Pool<E>, steps: seq<Step<E>>): Pool<E>
    decreases |steps|
  {
    if steps == [] then s
    else
      var t, step := Run(s, steps[..|steps| - 1]), steps[|steps| - 1];
      if Enabled(t, step) then Next(t, step) else t
  }

  /** In every interleaving: entries are in one place each, and packets are processed in order, each at most once. */
  lemma {:induction false} EveryInterleaving<E>(free: seq<E>, steps: seq<Step<E>>)
    requires forall i, j :: 0 <= i < j < |free| ==> free[i] != free[j]
    ensures var s := Run(Init(free), steps);
            && Inv(s) && s.pooled == (set e | e in free)
            && Increasing(s.processed) && Increasing(s.lost) && |s.queue| <= QUEUE_MAX
            && (forall n :: n in s.processed ==> n < s.received && n !in s.lost)
    decreases |steps|
  {
    hide Placed, Ordered;
    if steps == [] {
      InitHolds(free);
    } else {
      EveryInterleaving(free, steps[..|steps| - 1]);
      var t, step := Run(Init(free), steps[..|steps| - 1]), steps[|steps| - 1];
      if Enabled(t, step) {
        StepKeepsInv(t, step);
      }
    }
    ProcessedInOrder(Run(Init(free), steps));
  }

  /**
   What a step does to the queue, by serial numbers: a packet put goes behind all others, the
   oldest of 512 is lost for it, the oldest is taken, and otherwise nothing changes.
   */
  lemma QueueChanges<E>(s: Pool<E>, step: Step<E>)
    requires |s.queue| <= 512 && Enabled(s, step)
    ensures var t, q := Next(s, step), Serials(s.queue);
            match step
            case Put =>
              if |q| == 512 then Serials(t.queue) == q[1..] + [s.receiver.item.serial] && t.lost == s.lost + [q[0]]
              else Serials(t.queue) == q + [s.receiver.item.serial] && t.lost == s.lost
            case Get => [t.processor.value.serial] + Serials(t.queue) == q && t.lost == s.lost
            case _ => Serials(t.queue) == q && t.lost == s.lost
  {
  }

  /** The oldest packet at each of the moments when a packet is put and 512 are waiting already. */
  function Overflowed<E>(s: Pool<E>, steps: seq<Step<E>>): (serials: seq<nat>)
    decreases |steps|
  {
    if steps == [] then []
    else
      var t, step := Run(s, steps[..|steps| - 1]), steps[|steps| - 1];
      Overflowed(s, steps[..|steps| - 1]) +
      if step.Put? && Enabled(t, step) && |t.queue| == 512 then [t.queue[0].serial] else []
  }

  /** In every interleaving, these are the only packets that are lost. */
  lemma {:induction false} LosesOnlyWhenFull<E>(free: seq<E>, steps: seq<Step<E>>)
    requires forall i, j :: 0 <= i < j < |free| ==> free[i] != free[j]
    ensures Run(Init(free), steps).lost == Overflowed(Init(free), steps)
    decreases |steps|
  {
    if steps != [] {
      hide Inv, Next;
      LosesOnlyWhenFull(free, steps[..|steps| - 1]);
      EveryInterleaving(free, steps[..|steps| - 1]);
      var t, step := Run(Init(free), steps[..|steps| - 1]), steps[|steps| - 1];
      if Enabled(t, step) {
        QueueChanges(t, step);
      }
    }
  }

  /** The receive thread goes without a pooled entry exactly if all of them hold packets that are not done with. */
  lemma TakesPooled<E>(s: Pool<E>)
    requires Inv(s) && Enabled(s, Take)
    ensures Next(s, Take).receiver == Waiting(None) <==>
            forall e :: e in s.pooled ==> e in Entries(s.queue) || e in Entries(InProcess(s.processor))
  {
    hide Entries, InProcess;
    assert InHand(s.receiver) == [] && WaitingEntry(s.receiver) == [];
    if s.free != [] {
      var e := s.free[0];
      assert e in multiset(s.free) && e in Places(s);
      assert Places(s)[e] == 1;
      assert e in s.pooled;
      assert multiset(Entries(s.queue))[e] == 0 && multiset(Entries(InProcess(s.processor)))[e] == 0;
      assert e !in multiset(Entries(s.queue)) && e !in multiset(Entries(InProcess(s.processor)));
    } else {
      forall e | e in s.pooled ensures e in Entries(s.queue) || e in Entries(InProcess(s.processor)) {
        assert e in Places(s);
      }
    }
  }

  lemma ProcessedInOrder<E>(s: Pool<E>)
    requires Ordered(s)
    ensures Increasing(s.processed) && Increasing(s.lost)
    ensures forall n :: n in s.processed ==> n < s.received && n !in s.lost
  {
    forall i, j | 0 <= i < j < |s.processed| ensures s.processed[i] < s.processed[j] {
      assert Order(s)[i] == s.processed[i] && Order(s)[j] == s.processed[j];
    }
    forall n | n in s.processed ensures n in Order(s) {
    }
  }
}

module RecvPool {
  import opened Common
  import opened RecvPoolSpec

  class RecvPacket {
    var next: RecvPacket?
    var data: seq<byte>
    const pooled: bool

    constructor (pooled: bool)
      ensures this.pooled == pooled && next == null && data == []
    {
      this.pooled, next, data := pooled, null, [];
    }
  }

  function Following(entries: seq<RecvPacket>, i: nat): RecvPacket? {
    if i + 1 < |entries| then entries[i + 1] else null
  }

  /** A linked list with exactly these entries. */
  ghost predicate Linked(first: RecvPacket?, entries: seq<RecvPacket>)
    reads entries`next
  {
    && first == (if entries == [] then null else entries[0])
    && forall i :: 0 <= i < |entries| ==> entries[i].next == Following(entries, i)
  }

  lemma LinkedRest(first: RecvPacket?, entries: seq<RecvPacket>)
    requires Linked(first, entries) && entries != []
    ensures first == entries[0] && Linked(entries[0].next, entries[1..])
  {
    var rest := entries[1..];
    assert entries[0].next == Following(entries, 0);
    forall i | 0 <= i < |rest| ensures rest[i].next == Following(rest, i) {
      assert rest[i] == entries[i + 1];
    }
  }

  lemma LinkedMore(entry: RecvPacket, entries: seq<RecvPacket>)
    requires Linked(entry.next, entries)
    ensures Linked(entry, [entry] + entries)
  {
    var more := [entry] + entries;
    forall i | 0 <= i < |more| ensures more[i].next == Following(more, i) {
      if i > 0 {
        assert more[i] == entries[i - 1];
      }
    }
  }

  /** What being in one place means for the separate places. */
  lemma InOnePlace(s: Pool<RecvPacket>, e: RecvPacket)
    requires Placed(s)
    ensures var queued := multiset(s.free)[e] + multiset(Entries(s.queue))[e];
            var inProcess := multiset(Entries(InProcess(s.processor)))[e];
            var received := multiset(Entries(InHand(s.receiver)))[e] + multiset(WaitingEntry(s.receiver))[e];
            Places(s)[e] == queued + inProcess + received <= 1
  {
    hide Entries, WaitingEntry;
    assert e in Places(s) || Places(s)[e] == 0;
  }

  /** The bytes of these packets are the ones received. */
  ghost predicate BytesKept(items: seq<Item<RecvPacket>>, received: seq<seq<byte>>)
    reads Entries(items)`data
  {
    forall i :: 0 <= i < |items| ==>
      items[i].serial < |received| && Entries(items)[i].data == received[items[i].serial]
  }

  /** All entries there are belong to a set. */
  predicate Within(s: Pool<RecvPacket>, repr: set<RecvPacket>) {
    && (forall e :: e in s.free ==> e in repr)
    && (forall e :: e in Entries(s.queue) ==> e in repr)
    && (forall e :: e in Entries(InProcess(s.processor)) ==> e in repr)
    && (forall e :: e in Entries(InHand(s.receiver)) ==> e in repr)
    && (forall e :: e in WaitingEntry(s.receiver) ==> e in repr)
  }

  /** Pooled entries are marked. */
  predicate Marked(repr: set<RecvPacket>, pooled: set<RecvPacket>) {
    forall e :: e in repr ==> (e.pooled <==> e in pooled)
  }

  lemma ReceiveWithin(s: Pool<RecvPacket>, repr: set<RecvPacket>, packet: RecvPacket)
    requires Within(s, repr) && Enabled(s, Step.Receive(packet))
    requires s.receiver.entry.Some? ==> s.receiver.entry.value == packet
    ensures var t := Next(s, Step.Receive(packet));
            && Within(t, repr + {packet})
            && t == s.(receiver := Holding(Item(packet, s.received)), received := s.received + 1)
  {
    EntriesOfOne(Item(packet, s.received));
  }

  lemma TakeWithin(s: Pool<RecvPacket>, repr: set<RecvPacket>)
    requires Within(s, repr) && s.receiver.Idle?
    ensures Within(Next(s, Take), repr)
  {
  }

  class PacketQueue {
    var freeList: RecvPacket?
    var head: RecvPacket?
    var tail: RecvPacket?
    var count: nat

    ghost var model: Pool<RecvPacket>
    /** Everything received, by serial number. */
    ghost var received: seq<seq<byte>>
    /** All entries there have been. */
    ghost var repr: set<RecvPacket>

    ghost predicate FreeIs(free: seq<RecvPacket>)
      reads this`freeList, free`next
    {
      Linked(freeList, free)
    }

    ghost predicate QueueIs(q: seq<RecvPacket>)
      reads this`head, this`tail, this`count, q`next
    {
      Linked(head, q) && tail == (if q == [] then null else q[|q| - 1]) && count == |q|
    }

    ghost predicate Valid()
      reads this, repr
    {
      && Inv(model) && |received| == model.received && Within(model, repr)
      && FreeIs(model.free) && QueueIs(Entries(model.queue))
      && Marked(repr, model.pooled)
      && BytesKept(InProcess(model.processor), received) && BytesKept(model.queue, received)
      && BytesKept(InHand(model.receiver), received)
    }

    /** takion_recv_pool_create and lines 1343-1345. */
    constructor ()
      ensures Valid() && fresh(repr) && received == []
      ensures |model.free| == QUEUE_MAX && model == Init(model.free)
    {
      freeList, head, tail, count := null, null, null, 0;
      model, received, repr := Init([]), [], {};
      new;
      hide *;
      ghost var entries := CreateEntries();
      Started(entries);
    }

    ghost method Started(entries: seq<RecvPacket>)
      requires FreeIs(entries) && QueueIs([]) && received == [] && forall e :: e in entries ==> e.pooled
      requires forall j, k :: 0 <= j < k < |entries| ==> entries[j] != entries[k]
      modifies this`model, this`repr
      ensures Valid() && model == Init(entries) && repr == (set e | e in entries) && model.free == entries
    {
      hide Inv, FreeIs, QueueIs;
      InitHolds(entries);
      model, repr := Init(entries), set e | e in entries;
      assert Entries(model.queue) == [];
    }

    method CreateEntries() returns (ghost entries: seq<RecvPacket>)
      requires freeList == null
      modifies this`freeList
      ensures FreeIs(entries) && |entries| == QUEUE_MAX
      ensures forall e :: e in entries ==> fresh(e) && e.pooled
      ensures forall j, k :: 0 <= j < k < |entries| ==> entries[j] != entries[k]
    {
      entries := [];
      var i := 0;
      while i < QUEUE_MAX
        invariant 0 <= i <= QUEUE_MAX && |entries| == i && FreeIs(entries)
        invariant forall e :: e in entries ==> fresh(e) && e.pooled
        invariant forall j, k :: 0 <= j < k < |entries| ==> entries[j] != entries[k]
      {
        var entry := new RecvPacket(true);
        PushFree(entry, entries);
        entries := [entry] + entries;
        i := i + 1;
      }
    }

    /** An entry that is in no list becomes the first free one. */
    method PushFree(entry: RecvPacket, ghost free: seq<RecvPacket>)
      requires FreeIs(free) && entry !in free
      modifies this`freeList, entry`next
      ensures FreeIs([entry] + free)
    {
      entry.next := freeList;
      assert Linked(entry.next, free);
      freeList := entry;
      LinkedMore(entry, free);
    }

    /** Lines 1237-1241 and 1416-1420. */
    method PopHead(ghost q: seq<RecvPacket>) returns (entry: RecvPacket)
      requires QueueIs(q) && q != []
      modifies this`head, this`tail, this`count
      ensures entry == q[0] && QueueIs(q[1..])
    {
      LinkedRest(head, q);
      entry := head;
      head := entry.next;
      if head == null {
        tail := null;
      }
      count := count - 1;
    }

    /** Lines 1424-1429. */
    method AppendEntry(entry: RecvPacket, ghost q: seq<RecvPacket>)
      requires QueueIs(q) && entry !in q && entry.next == null
      requires forall i, j :: 0 <= i < j < |q| ==> q[i] != q[j]
      modifies this`head, this`tail, this`count, q`next
      ensures QueueIs(q + [entry])
    {
      if tail != null {
        tail.next := entry;
      } else {
        head := entry;
      }
      tail := entry;
      count := count + 1;
    }

    /** Lines 1365-1374: the receive thread takes an entry, if there is one. */
    method TakeFree() returns (entry: RecvPacket?)
      requires Valid() && model.receiver.Idle?
      modifies this`freeList, this`model
      ensures Valid() && model == Next(old(model), Take)
      ensures entry == if old(model).free == [] then null else old(model).free[0]
    {
      hide Inv, Within, BytesKept, QueueIs;
      TakeKeepsInv(model);
      TakeWithin(model, repr);
      entry := freeList;
      if freeList != null {
        LinkedRest(freeList, model.free);
        freeList := freeList.next;
      }
      model := Next(model, Take);
    }

    /** Lines 1376-1411: the data is received into the entry, or into a new one if there was none. */
    method Receive(entry: RecvPacket?, data: seq<byte>) returns (packet: RecvPacket)
      requires Valid() && model.receiver.Waiting?
      requires entry == if model.receiver.entry.Some? then model.receiver.entry.value else null
      modifies this`model, this`received, this`repr, repr
      ensures Valid() && received == old(received) + [data] && fresh(repr - old(repr))
      ensures Enabled(old(model), Step.Receive(packet)) && model == Next(old(model), Step.Receive(packet))
    {
      hide *;
      packet := FillPacket(entry, data);
      Received(packet, data);
    }

    /** The bookkeeping of Receive. */
    ghost method Received(packet: RecvPacket, data: seq<byte>)
      requires Inv(model) && |received| == model.received && Within(model, repr) && Marked(repr, model.pooled)
      requires FreeIs(model.free) && QueueIs(Entries(model.queue))
      requires BytesKept(InProcess(model.processor), received) && BytesKept(model.queue, received)
      requires packet.data == data && Enabled(model, Step.Receive(packet))
      requires packet.pooled <==> packet in model.pooled
      requires model.receiver.entry.Some? ==> packet == model.receiver.entry.value
      modifies this`model, this`received, this`repr
      ensures Valid() && received == old(received) + [data] && repr == old(repr) + {packet}
      ensures model == Next(old(model), Step.Receive(packet))
    {
      hide Inv, Places, FreeIs, QueueIs, BytesKept, Entries, Within, Next, Enabled;
      ReceiveKeepsInv(model, packet);
      ReceiveWithin(model, repr, packet);
      BytesMore(model.queue, received, data);
      BytesMore(InProcess(model.processor), received, data);
      BytesOfNew(packet, received, data);
      received := received + [data];
      repr := repr + {packet};
      model := Next(model, Step.Receive(packet));
    }

    method FillPacket(entry: RecvPacket?, data: seq<byte>) returns (packet: RecvPacket)
      requires Valid() && model.receiver.Waiting?
      requires entry == if model.receiver.entry.Some? then model.receiver.entry.value else null
      modifies repr
      ensures packet.data == data && (fresh(packet) || packet in repr)
      ensures Inv(model) && |received| == model.received && Within(model, repr) && Marked(repr, model.pooled)
      ensures Enabled(model, Step.Receive(packet)) && (packet.pooled <==> packet in model.pooled)
      ensures FreeIs(model.free) && QueueIs(Entries(model.queue))
      ensures BytesKept(InProcess(model.processor), received) && BytesKept(model.queue, received)
      ensures model.receiver.entry.Some? ==> packet == model.receiver.entry.value
    {
      hide Inv, Places, FreeIs, QueueIs, BytesKept;
      if entry != null {
        packet := entry;
        WaitingApart(model);
        packet.data := data;
      } else {
        packet := new RecvPacket(false);
        NewApart(model, repr, packet);
        packet.data := data;
      }
    }

    /** The bookkeeping of a step that has changed the lists as it should. */
    ghost method Stepped(step: Step<RecvPacket>)
      requires Inv(model) && |received| == model.received && Within(model, repr) && Marked(repr, model.pooled)
      requires Enabled(model, step) && !step.Receive?
      requires FreeIs(Next(model, step).free) && QueueIs(Entries(Next(model, step).queue))
      requires BytesKept(InProcess(model.processor), received) && BytesKept(model.queue, received)
      requires BytesKept(InHand(model.receiver), received)
      modifies this`model
      ensures Valid() && model == Next(old(model), step)
    {
      hide Inv, FreeIs, QueueIs, Places, Next, Enabled, Within, BytesKept;
      StepKeepsInv(model, step);
      StepWithin(model, repr, step);
      StepBytes(model, step, received);
      model := Next(model, step);
    }

    /** Only pooled entries go back to the free list; others are given back to the allocator. */
    method ReleaseEntry(entry: RecvPacket, ghost free: seq<RecvPacket>)
      requires FreeIs(free) && entry !in free
      modifies this`freeList, entry`next
      ensures FreeIs(if entry.pooled then [entry] + free else free)
    {
      if entry.pooled {
        PushFree(entry, free);
      }
    }

    /** Lines 1383-1388: the entry is released when receiving has failed. */
    method FailToReceive(entry: RecvPacket?)
      requires Valid() && model.receiver.Waiting?
      requires entry == if model.receiver.entry.Some? then model.receiver.entry.value else null
      modifies this`freeList, this`model, repr`next
      ensures model == Next(old(model), Fail) && received == old(received) && repr == old(repr)
      ensures Valid()
    {
      hide Inv, FreeIs, QueueIs, BytesKept;
      if entry != null {
        WaitingApart(model);
        ReleaseEntry(entry, model.free);
      }
      Stepped(Fail);
    }

    /** Lines 1411-1430: a full queue loses its oldest packet, and the new one becomes the youngest. */
    method Enqueue(packet: RecvPacket)
      requires Valid() && model.receiver.Holding? && packet == model.receiver.item.entry
      modifies this`head, this`tail, this`count, this`freeList, this`model, repr`next
      ensures model == Next(old(model), RecvPoolSpec.Put) && received == old(received) && repr == old(repr)
      ensures Valid()
    {
      hide Inv, FreeIs, QueueIs, BytesKept;
      HandApart(model);
      packet.next := null;
      ghost var q, free := MakeRoom(packet);
      AppendEntry(packet, q);
      assert FreeIs(free);
      PutShape(model);
      Stepped(RecvPoolSpec.Put);
    }

    /** Lines 1414-1423. */
    method MakeRoom(packet: RecvPacket) returns (ghost q: seq<RecvPacket>, ghost free: seq<RecvPacket>)
      requires Inv(model) && Marked(repr, model.pooled) && Within(model, repr)
      requires FreeIs(model.free) && QueueIs(Entries(model.queue))
      requires packet !in model.free && packet !in Entries(model.queue)
      modifies this`head, this`tail, this`count, this`freeList, repr`next
      ensures FreeIs(free) && QueueIs(q) && packet !in q && packet.next == old(packet.next)
      ensures forall e :: e in q ==> e in repr
      ensures forall i, j :: 0 <= i < |free| && 0 <= j < |q| ==> free[i] != q[j]
      ensures forall i, j :: 0 <= i < j < |q| ==> q[i] != q[j]
      ensures if |model.queue| >= QUEUE_MAX then
                && free == (if model.queue[0].entry in model.pooled
                            then [model.queue[0].entry] + model.free else model.free)
                && q == Entries(model.queue[1..])
              else
                free == model.free && q == Entries(model.queue)
    {
      hide Inv, FreeIs, QueueIs;
      QueueApart(model);
      q, free := Entries(model.queue), model.free;
      HeadIs(q);
      if count >= QUEUE_MAX {
        RestOf(model.queue);
        var dropped := PopHead(q);
        assert dropped in q && dropped != packet;
        ReleaseEntry(dropped, free);
        free, q := if dropped.pooled then [dropped] + free else free, q[1..];
      }
      forall i, j | 0 <= i < |free| && 0 <= j < |q| ensures free[i] != q[j] {
        assert q[j] in Entries(model.queue);
        assert free[i] in model.free || free[i] == Entries(model.queue)[0];
      }
    }

    lemma HeadIs(q: seq<RecvPacket>)
      requires QueueIs(q)
      ensures (head == null <==> q == []) && count == |q|
    {
    }

    /** Lines 1226-1242: the process thread takes the oldest packet, if there is one. */
    method Dequeue() returns (packet: RecvPacket?)
      requires Valid() && model.processor.None?
      modifies this`head, this`tail, this`count, this`model
      ensures Valid() && received == old(received)
      ensures old(model).queue == [] ==> packet == null && model == old(model)
      ensures old(model).queue != [] ==> packet == old(model).queue[0].entry && model == Next(old(model), Get)
    {
      hide Inv, FreeIs, QueueIs, BytesKept;
      HeadIs(Entries(model.queue));
      if head == null {
        return null;
      }
      RestOf(model.queue);
      packet := PopHead(Entries(model.queue));
      Stepped(Get);
    }

    /** Lines 1294-1305: the bytes handed on are those received under the packet's number; the entry goes back. */
    method Process(packet: RecvPacket) returns (bytes: seq<byte>)
      requires Enabled(model, Done) && packet == model.processor.value.entry && Valid()
      modifies this`freeList, this`model, repr`next
      ensures model == Next(old(model), Done) && received == old(received) && repr == old(repr)
      ensures old(model).processor.value.serial < |received| && bytes == received[old(model).processor.value.serial]
      ensures Valid()
    {
      hide Inv, FreeIs, QueueIs;
      bytes := packet.data;
      ProcessApart(model);
      ReleaseEntry(packet, model.free);
      Stepped(Done);
    }
  }

  lemma BytesMore(items: seq<Item<RecvPacket>>, received: seq<seq<byte>>, data: seq<byte>)
    requires BytesKept(items, received)
    ensures BytesKept(items, received + [data])
  {
  }

  lemma BytesOfNew(packet: RecvPacket, received: seq<seq<byte>>, data: seq<byte>)
    requires packet.data == data
    ensures BytesKept([Item(packet, |received|)], received + [data])
  {
  }

  lemma EntriesOfOne(item: Item<RecvPacket>)
    ensures Entries([item]) == [item.entry]
  {
  }

  lemma WaitingApart(s: Pool<RecvPacket>)
    requires Inv(s) && s.receiver.Waiting? && s.receiver.entry.Some?
    ensures var e := s.receiver.entry.value;
            e !in s.free && e !in Entries(s.queue) && e !in Entries(InProcess(s.processor))
  {
    InOnePlace(s, s.receiver.entry.value);
  }

  lemma NewApart(s: Pool<RecvPacket>, repr: set<RecvPacket>, e: RecvPacket)
    requires e !in repr && Inv(s) && Within(s, repr)
    ensures e !in Places(s) && e !in s.pooled
  {
  }

  lemma StepWithin(s: Pool<RecvPacket>, repr: set<RecvPacket>, step: Step<RecvPacket>)
    requires Within(s, repr) && Enabled(s, step) && !step.Receive?
    ensures Within(Next(s, step), repr)
    ensures Next(s, step).received == s.received && Next(s, step).pooled == s.pooled
  {
    if s.queue != [] {
      FirstEntry(s.queue);
      EntriesOfOne(s.queue[0]);
      assert s.queue[0].entry in Entries(s.queue);
    }
    match step
    case Put =>
      PutShape(s);
      EntriesOfOne(s.receiver.item);
      assert s.receiver.item.entry in Entries(InHand(s.receiver));
    case Done =>
      EntriesOfOne(s.processor.value);
      assert s.processor.value.entry in Entries(InProcess(s.processor));
    case Fail =>
    case Take =>
    case Get =>
  }

  lemma StepBytes(s: Pool<RecvPacket>, step: Step<RecvPacket>, received: seq<seq<byte>>)
    requires Enabled(s, step) && !step.Receive?
    requires BytesKept(InProcess(s.processor), received) && BytesKept(s.queue, received)
    requires BytesKept(InHand(s.receiver), received)
    ensures var t := Next(s, step);
            && BytesKept(InProcess(t.processor), received) && BytesKept(t.queue, received)
            && BytesKept(InHand(t.receiver), received)
  {
    hide Entries, Places;
    match step
    case Put => PutBytes(s, received);
    case Get =>
    case Done =>
    case Fail =>
    case Take =>
  }

  lemma PutBytes(s: Pool<RecvPacket>, received: seq<seq<byte>>)
    requires Enabled(s, Put) && BytesKept(s.queue, received) && BytesKept(InHand(s.receiver), received)
    ensures BytesKept(Next(s, Put).queue, received)
  {
    hide Entries, Places;
    assert InHand(s.receiver)[0] == s.receiver.item;
  }

  lemma HandApart(s: Pool<RecvPacket>)
    requires Inv(s) && s.receiver.Holding?
    ensures var e := s.receiver.item.entry;
            && e !in s.free && e !in Entries(s.queue) && e !in Entries(InProcess(s.processor))
            && Entries(InHand(s.receiver)) == [e]
  {
    EntriesOfOne(s.receiver.item);
    InOnePlace(s, s.receiver.item.entry);
  }

  lemma ProcessApart(s: Pool<RecvPacket>)
    requires Inv(s) && s.processor.Some?
    ensures var e := s.processor.value.entry;
            && e !in s.free && e !in Entries(s.queue) && e !in Entries(InHand(s.receiver))
            && Entries(InProcess(s.processor)) == [e]
  {
    EntriesOfOne(s.processor.value);
    InOnePlace(s, s.processor.value.entry);
  }

  lemma QueueApart(s: Pool<RecvPacket>)
    requires Inv(s)
    ensures forall e :: e in Entries(s.queue) ==> e !in s.free
    ensures var q := Entries(s.queue); forall i, j :: 0 <= i < j < |q| ==> q[i] != q[j]
  {
    var q := Entries(s.queue);
    forall e | e in q ensures e !in s.free && multiset(q)[e] <= 1 {
      InOnePlace(s, e);
    }
    forall i, j | 0 <= i < j < |q| ensures q[i] != q[j] {
      assert q == q[..j] + [q[j]] + q[j + 1..];
      assert multiset(q) == multiset(q[..j]) + multiset{q[j]} + multiset(q[j + 1..]);
      assert q[..j][i] == q[i] && q[i] in q[..j];
      assert multiset(q)[q[j]] <= 1;
      assert q[i] in multiset(q[..j]);
    }
  }

  lemma RestOf(items: seq<Item<RecvPacket>>)
    requires items != []
    ensures Entries(items)[0] == items[0].entry && Entries(items)[1..] == Entries(items[1..])
  {
  }

  lemma PutShape(s: Pool<RecvPacket>)
    requires s.receiver.Holding?
    ensures var t := Next(s, RecvPoolSpec.Put);
            if |s.queue| >= QUEUE_MAX then
              && t.free == (if s.queue[0].entry in s.pooled then [s.queue[0].entry] + s.free else s.free)
              && Entries(t.queue) == Entries(s.queue[1..]) + [s.receiver.item.entry]
            else
              t.free == s.free && Entries(t.queue) == Entries(s.queue) + [s.receiver.item.entry]
  {
  }
}
