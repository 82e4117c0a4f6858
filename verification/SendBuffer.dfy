/** The Takion retransmit buffer of lib/src/takionsendbuffer.c. */
module SendSpec {
  import opened Common
  import opened SeqNum

  datatype Packet = Packet(seqNum: nat, tries: nat, lastSendMs: nat, buf: seq<byte>)

  /** The size of the retransmit buffer of a channel. */
  const BUFFER_SIZE := 16

  /** A cumulative acknowledgement of `ack` covers `seqNum`. */
  predicate Covers(ack: nat, seqNum: nat) {
    seqNum == ack || Lt(W32, seqNum, ack)
  }

  /** The packets an acknowledgement leaves in the buffer, in their order. */
  function Kept(ps: seq<Packet>, ack: nat): seq<Packet> {
    if ps == [] then []
    else
      var p := ps[|ps| - 1];
      Kept(ps[..|ps| - 1], ack) + (if Covers(ack, p.seqNum) then [] else [p])
  }

  /** The numbers of the packets it removes, in their order. */
  function Removed(ps: seq<Packet>, ack: nat): seq<nat> {
    if ps == [] then []
    else
      var p := ps[|ps| - 1];
      Removed(ps[..|ps| - 1], ack) + (if Covers(ack, p.seqNum) then [p.seqNum] else [])
  }

  predicate HasNumber(ps: seq<Packet>, n: nat) {
    exists i :: 0 <= i < |ps| && ps[i].seqNum == n
  }

  predicate Distinct(ps: seq<Packet>) {
    forall i, j :: 0 <= i < j < |ps| ==> ps[i].seqNum != ps[j].seqNum
  }

  /** A packet is kept exactly when it was there and is not covered. */
  lemma {:induction false} KeptExactly(ps: seq<Packet>, ack: nat, p: Packet)
    ensures p in Kept(ps, ack) <==> p in ps && !Covers(ack, p.seqNum)
  {
    if ps != [] {
      KeptExactly(ps[..|ps| - 1], ack, p);
      assert ps == ps[..|ps| - 1] + [ps[|ps| - 1]];
    }
  }

  /** A number is reported exactly when a packet of that number was there and is covered. */
  lemma {:induction false} RemovedExactly(ps: seq<Packet>, ack: nat, n: nat)
    ensures n in Removed(ps, ack) <==> HasNumber(ps, n) && Covers(ack, n)
  {
    if ps != [] {
      var init := ps[..|ps| - 1];
      RemovedExactly(init, ack, n);
      assert HasNumber(ps, n) <==> HasNumber(init, n) || ps[|ps| - 1].seqNum == n by {
        if HasNumber(init, n) {
          var i :| 0 <= i < |init| && init[i].seqNum == n;
          assert ps[i].seqNum == n;
        }
        assert forall i :: 0 <= i < |init| ==> init[i] == ps[i];
      }
    }
  }

  /** Nothing is lost or made up: every packet is either kept or reported. */
  lemma {:induction false} KeptAndRemoved(ps: seq<Packet>, ack: nat)
    ensures |Kept(ps, ack)| + |Removed(ps, ack)| == |ps|
  {
    if ps != [] {
      KeptAndRemoved(ps[..|ps| - 1], ack);
    }
  }

  lemma {:induction false} KeptDistinct(ps: seq<Packet>, ack: nat)
    requires Distinct(ps)
    ensures Distinct(Kept(ps, ack))
  {
    if ps != [] {
      var init, last := ps[..|ps| - 1], ps[|ps| - 1];
      KeptDistinct(init, ack);
      forall p | p in Kept(init, ack) ensures p.seqNum != last.seqNum {
        KeptExactly(init, ack, p);
      }
    }
  }

  lemma KeptLast(ps: seq<Packet>, p: Packet, ack: nat)
    ensures Kept(ps + [p], ack) == Kept(ps, ack) + if Covers(ack, p.seqNum) then [] else [p]
  {
    assert (ps + [p])[..|ps|] == ps;
  }

  /** A run of packets none of which is covered stays. */
  lemma {:induction false} KeptRun(a: seq<Packet>, run: seq<Packet>, ack: nat)
    requires forall i :: 0 <= i < |run| ==> !Covers(ack, run[i].seqNum)
    ensures Kept(a + run, ack) == Kept(a, ack) + run
    decreases |run|
  {
    hide Covers, Kept;
    if run == [] {
      assert a + run == a;
    } else {
      var n := |run| - 1;
      KeptRun(a, run[..n], ack);
      KeptLast(a + run[..n], run[n], ack);
      assert a + run == (a + run[..n]) + [run[n]] && run == run[..n] + [run[n]];
    }
  }

  lemma KeptHasNumber(ps: seq<Packet>, ack: nat, n: nat)
    ensures HasNumber(Kept(ps, ack), n) <==> HasNumber(ps, n) && !Covers(ack, n)
  {
    var kept := Kept(ps, ack);
    if HasNumber(kept, n) {
      var i :| 0 <= i < |kept| && kept[i].seqNum == n;
      KeptExactly(ps, ack, kept[i]);
    }
    if HasNumber(ps, n) && !Covers(ack, n) {
      var i :| 0 <= i < |ps| && ps[i].seqNum == n;
      KeptExactly(ps, ack, ps[i]);
      assert ps[i] in kept;
    }
  }

  /** Entries only move towards the front. */
  lemma {:induction false} KeptFrom(ps: seq<Packet>, ack: nat, k: nat)
    requires k < |Kept(ps, ack)|
    ensures |Kept(ps, ack)| <= |ps| && Kept(ps, ack)[k] in ps[k..]
  {
    var init := ps[..|ps| - 1];
    KeptAndRemoved(ps, ack);
    KeptAndRemoved(init, ack);
    if k < |Kept(init, ack)| {
      KeptFrom(init, ack, k);
      assert ps[k..] == init[k..] + [ps[|ps| - 1]];
    } else {
      assert ps[k..][|ps| - 1 - k] == ps[|ps| - 1];
    }
  }

  /** Acknowledging the number of a packet that is there removes something. */
  lemma KeptFewer(ps: seq<Packet>, i: nat)
    requires i < |ps|
    ensures |Kept(ps, ps[i].seqNum)| < |ps|
  {
    var n := ps[i].seqNum;
    KeptAndRemoved(ps, n);
    RemovedExactly(ps, n, n);
    assert HasNumber(ps, n) && n in Removed(ps, n);
  }

  lemma AckNothing(ack: nat)
    ensures Kept([], ack) == [] && Removed([], ack) == []
  {
  }

  lemma AckOne(ps: seq<Packet>, i: nat, ack: nat)
    requires i < |ps|
    ensures Kept(ps[..i + 1], ack) ==
            if Covers(ack, ps[i].seqNum) then Kept(ps[..i], ack) else Kept(ps[..i], ack) + [ps[i]]
    ensures Removed(ps[..i + 1], ack)
            == Removed(ps[..i], ack) + (if Covers(ack, ps[i].seqNum) then [ps[i].seqNum] else [])
  {
    assert ps[..i + 1][..i] == ps[..i];
  }
}

module SendBuffer {
  import opened Common
  import opened SeqNum
  import opened SendSpec

  const RESEND_TIMEOUT_MS := 200
  const RESEND_TRIES_MAX := 25

  datatype Result = Success | Overflow | InvalidData

  class Buffer {
    const packets: array<Packet>
    var count: nat

    ghost predicate Valid()
      reads this, packets
    {
      && count <= packets.Length < SIZE_MAX
      && Distinct(Contents())
    }

    ghost function Contents(): seq<Packet>
      reads this, packets
      requires count <= packets.Length
    {
      packets[..count]
    }

    constructor (size: nat)
      requires size < SIZE_MAX
      ensures Valid() && fresh(packets) && packets.Length == size && Contents() == []
    {
      packets := new Packet[size](_ => Packet(0, 0, 0, []));
      count := 0;
    }

    /** A full buffer and a number already present are refused, in this order; nothing else is. */
    method Push(seqNum: nat, buf: seq<byte>, now: nat) returns (r: Result)
      requires Valid()
      modifies this, packets
      ensures Valid()
      ensures r == Overflow <==> old(count) == packets.Length
      ensures r == InvalidData <==> old(count) < packets.Length && HasNumber(old(Contents()), seqNum)
      ensures Contents() ==
              if r == Success then old(Contents()) + [Packet(seqNum, 0, now, buf)] else old(Contents())
    {
      if count >= packets.Length {
        return Overflow;
      }
      var i := 0;
      while i < count
        invariant 0 <= i <= count
        invariant forall j :: 0 <= j < i ==> packets[j].seqNum != seqNum
      {
        if packets[i].seqNum == seqNum {
          assert Contents()[i].seqNum == seqNum;
          return InvalidData;
        }
        i := i + 1;
      }
      packets[count] := Packet(seqNum, 0, now, buf);
      count := count + 1;
      r := Success;
    }

    /** `memmove` of `n` entries from index `src` down to index `dst`. */
    method MoveDown(dst: nat, src: nat, n: nat)
      requires dst <= src && src + n <= packets.Length
      modifies packets
      ensures packets[dst..dst + n] == old(packets[src..src + n])
      ensures packets[..dst] == old(packets[..dst]) && packets[dst + n..] == old(packets[dst + n..])
    {
      forall i | 0 <= i < n {
        packets[dst + i] := packets[src + i];
      }
    }

    /** Moves the entries behind a gap of `shift` entries down to `start`, up to index `end`. */
    method CloseGap(start: nat, shift: nat, end: nat)
      requires start + shift <= end <= packets.Length
      modifies packets
      ensures packets[..end - shift] == old(packets[..start] + packets[start + shift..end])
      ensures packets[end..] == old(packets[end..])
    {
      var n := end - (start + shift);
      MoveDown(start, start + shift, n);
      assert packets[..end - shift] == packets[..start] + packets[start..start + n];
      assert packets[end..] == packets[start + n..][shift..];
      assert old(packets[end..]) == old(packets[start + n..])[shift..];
    }

    /**
     The single pass that shifts every gap down once equals a stable filter, and
     reports exactly the removed numbers, within the caller's array.
     */
    method Ack(seqNum: nat, acked: array<nat>) returns (ackedCount: nat)
      requires Valid() && packets.Length <= acked.Length
      modifies this, packets, acked
      ensures Valid()
      ensures Contents() == Kept(old(Contents()), seqNum)
      ensures ackedCount <= acked.Length && acked[..ackedCount] == Removed(old(Contents()), seqNum)
    {
      hide Kept, Removed, Lt, Distinct, Gap;
      ghost var ps := Contents();
      AckNothing(seqNum);
      ackedCount := 0;
      var shift: nat, shiftStart: nat := 0, SIZE_MAX;
      var i := 0;
      NoGap();
      while i < count
        invariant 0 <= i <= count == |ps| && count <= packets.Length
        invariant ackedCount <= i && acked[..ackedCount] == Removed(ps[..i], seqNum)
        // every entry is still unmoved when it is looked at
        invariant forall k :: i <= k < count ==> packets[k] == ps[k]
        invariant Gap(i, shiftStart, shift, Kept(ps[..i], seqNum))
      {
        AckOne(ps, i, seqNum);
        if packets[i].seqNum == seqNum || Lt(W32, packets[i].seqNum, seqNum) {
          acked[ackedCount] := packets[i].seqNum;
          ackedCount := ackedCount + 1;
          shiftStart, shift := WidenGap(i, shiftStart, shift, Kept(ps[..i], seqNum));
        } else {
          KeepBehindGap(i, shiftStart, shift, Kept(ps[..i], seqNum));
        }
        i := i + 1;
      }
      assert ps[..i] == ps;
      if shiftStart != SIZE_MAX {
        FinalShift(shiftStart, shift, Kept(ps, seqNum));
      }
      WithoutGap(shiftStart, shift, Kept(ps, seqNum));
      KeptDistinct(ps, seqNum);
    }

    /** In front of the gap, or with none up to `i`, the result so far; behind the gap entries to be kept. */
    ghost predicate Gap(i: nat, shiftStart: nat, shift: nat, kept: seq<Packet>)
      reads this, packets
    {
      && i <= packets.Length
      && if shiftStart == SIZE_MAX then shift == 0 && packets[..i] == kept
         else shift > 0 && shiftStart + shift <= i && packets[..shiftStart] + packets[shiftStart + shift..i] == kept
    }

    lemma NoGap()
      ensures Gap(0, SIZE_MAX, 0, [])
    {
    }

    lemma WithoutGap(shiftStart: nat, shift: nat, kept: seq<Packet>)
      requires count <= packets.Length
      requires if shiftStart == SIZE_MAX then Gap(count, shiftStart, shift, kept) else Contents() == kept
      ensures Contents() == kept
    {
    }

    lemma KeepBehindGap(i: nat, shiftStart: nat, shift: nat, kept: seq<Packet>)
      requires i < packets.Length && Gap(i, shiftStart, shift, kept)
      ensures Gap(i + 1, shiftStart, shift, kept + [packets[i]])
    {
      var from := if shiftStart == SIZE_MAX then 0 else shiftStart + shift;
      assert packets[from..i + 1] == packets[from..i] + [packets[i]];
    }

    /** Lines 160-181: entry `i` is covered. */
    method WidenGap(i: nat, shiftStart: nat, shift: nat, ghost kept: seq<Packet>)
      returns (newStart: nat, newShift: nat)
      requires i < count <= packets.Length < SIZE_MAX && Gap(i, shiftStart, shift, kept)
      modifies packets
      ensures Gap(i + 1, newStart, newShift, kept)
      ensures forall k :: i < k < count ==> packets[k] == old(packets[k])
    {
      newStart, newShift := shiftStart, shift;
      if shiftStart == SIZE_MAX {
        newStart, newShift := i, 1;
        assert packets[..i] + packets[i + 1..i + 1] == packets[..i];
      } else if shiftStart + shift == i {
        newShift := shift + 1;
        assert packets[shiftStart + shift..i] == packets[shiftStart + newShift..i + 1] == [];
      } else {
        CloseGap(shiftStart, shift, i);
        newStart := i - shift;
        newShift := shift + 1;
        assert packets[..newStart] + packets[newStart + newShift..i + 1] == packets[..i - shift];
        assert forall k :: i <= k < count ==> packets[k] == packets[i..][k - i] == old(packets[i..])[k - i];
      }
    }

    /** Lines 185-195: what is behind the last gap moves down. */
    method FinalShift(shiftStart: nat, shift: nat, ghost kept: seq<Packet>)
      requires count <= packets.Length && shiftStart != SIZE_MAX && Gap(count, shiftStart, shift, kept)
      modifies this`count, packets
      ensures count <= packets.Length && Contents() == kept
    {
      if shiftStart + shift < count {
        CloseGap(shiftStart, shift, count);
      } else {
        assert packets[shiftStart + shift..count] == [];
      }
      count := count - shift;
    }

    ghost predicate TriesBounded()
      reads this, packets
      requires count <= packets.Length
    {
      forall i :: 0 <= i < count ==> packets[i].tries <= RESEND_TRIES_MAX
    }

    /** Giving up on the packet at `i`: the lock is dropped and taken again around an ordinary ack. */
    method GiveUp(i: nat, ghost known: seq<Packet>)
      requires Valid() && TriesBounded() && i < count
      requires forall k :: i <= k < count ==> packets[k] in known
      modifies this, packets
      ensures Valid() && TriesBounded() && count < old(count)
      ensures forall n :: HasNumber(Contents(), n) <==>
                          HasNumber(old(Contents()), n) && !Covers(old(packets[i].seqNum), n)
      ensures forall k :: i <= k < count ==> packets[k] in known
      ensures forall p :: p in Contents() ==> p in old(Contents())
    {
      hide Kept, Removed, Covers, Distinct, HasNumber;
      ghost var ps, ack := Contents(), packets[i].seqNum;
      var acked := new nat[packets.Length];
      var _ := Ack(packets[i].seqNum, acked);
      forall n ensures HasNumber(Contents(), n) <==> HasNumber(ps, n) && !Covers(ack, n) {
        KeptHasNumber(ps, ack, n);
      }
      assert ps[i].seqNum == ack && forall p :: p in ps ==> p.tries <= RESEND_TRIES_MAX;
      KeptFewer(ps, i);
      assert forall k :: i <= k < |ps| ==> ps[k] in known;
      forall k | i <= k < count ensures packets[k] in known {
        KeptFrom(ps, ack, k);
        assert packets[k] == Contents()[k];
      }
      forall p | p in Contents() ensures p in ps {
        KeptExactly(ps, ack, p);
      }
      forall k | 0 <= k < count ensures packets[k].tries <= RESEND_TRIES_MAX {
        assert packets[k] == Contents()[k];
        assert packets[k] in ps;
      }
    }

    /** Lines 275-277: the packet at `i` is sent once more. */
    method Retry(i: nat, now: nat)
      requires Valid() && TriesBounded() && i < count && packets[i].tries < RESEND_TRIES_MAX
      modifies packets
      ensures Valid() && TriesBounded()
      ensures packets[i] == Again(old(packets[i]), now)
      ensures forall k :: 0 <= k < count && k != i ==> packets[k] == old(packets[k])
      ensures forall n :: HasNumber(Contents(), n) <==> HasNumber(old(Contents()), n)
    {
      ghost var before := Contents();
      packets[i] := packets[i].(lastSendMs := now, tries := packets[i].tries + 1);
      forall n ensures HasNumber(Contents(), n) <==> HasNumber(before, n) {
        assert forall k :: 0 <= k < count ==> Contents()[k].seqNum == before[k].seqNum;
      }
    }

    /** Lines 264-272: the packet at `i` has used up its tries. */
    method Abandon(i: nat, gaveUp: set<nat>, ghost ps: seq<Packet>, ghost now: nat) returns (more: set<nat>)
      requires Valid() && TriesBounded() && i < count && packets[i].tries >= RESEND_TRIES_MAX
      requires forall k :: i <= k < count ==> packets[k] in ps
      requires forall g :: g in gaveUp ==> AtTheLimit(ps, g)
      requires forall n :: HasNumber(ps, n) ==> HasNumber(Contents(), n) || CoveredBy(gaveUp, n)
      requires forall p :: p in Contents() ==> LeftOf(ps, p, now)
      modifies this, packets
      ensures Valid() && TriesBounded() && count < old(count)
      ensures forall k :: i <= k < count ==> packets[k] in ps
      ensures forall g :: g in more ==> AtTheLimit(ps, g)
      ensures forall n :: HasNumber(ps, n) ==> HasNumber(Contents(), n) || CoveredBy(more, n)
      ensures forall p :: p in Contents() ==> LeftOf(ps, p, now)
    {
      hide HasNumber, Covers, CoveredBy, AtTheLimit, Distinct, LeftOf;
      var seqNum := packets[i].seqNum;
      LimitReached(ps, packets[i]);
      GiveUp(i, ps);
      more := gaveUp + {seqNum};
      CoveredByMore(gaveUp, seqNum);
    }

    /**
     One resend pass. It ends; no packet is resent more than RESEND_TRIES_MAX times; and
     a packet leaves the buffer only when a packet given up on, at the limit, covers it.
     Whatever is sent is the payload of a packet that was there and due, and every packet
     left is one that was there, or was there and due and has its new time and count.
     Unless one is given up on, exactly the packets that are due are sent, in order.
     */
    method Resend(now: nat) returns (sent: seq<seq<byte>>, gaveUp: set<nat>)
      requires Valid() && TriesBounded()
      modifies this, packets
      ensures Valid() && TriesBounded()
      ensures forall g :: g in gaveUp ==> AtTheLimit(old(Contents()), g)
      ensures forall n :: HasNumber(old(Contents()), n) ==> HasNumber(Contents(), n) || CoveredBy(gaveUp, n)
      ensures forall d :: d in sent ==> SentFrom(old(Contents()), d, now)
      ensures forall p :: p in Contents() ==> LeftOf(old(Contents()), p, now)
      ensures NoneExhausted(old(Contents()), now) ==>
                gaveUp == {} && Contents() == Resent(old(Contents()), now) && sent == SentAgain(old(Contents()), now)
    {
      hide HasNumber, CoveredBy, AtTheLimit, Distinct, SentAgain, Resent, NoneExhausted, SentFrom, LeftOf;
      hide Passing, TriesBounded;
      sent, gaveUp := [], {};
      var i := 0;
      ghost var ps := Contents();
      PassBegins(now);
      while i < count
        invariant 0 <= i && Valid() && TriesBounded() && Passing(ps, now, i, sent, gaveUp)
        decreases count - i
      {
        sent, gaveUp, i := ResendOne(i, now, sent, gaveUp, ps);
      }
      PassEnds(ps, now, i, sent, gaveUp);
    }

    /** One round of the loop. */
    method ResendOne(i: nat, now: nat, sent: seq<seq<byte>>, gaveUp: set<nat>, ghost ps: seq<Packet>)
      returns (more: seq<seq<byte>>, moreGaveUp: set<nat>, next: nat)
      requires Valid() && TriesBounded() && i < count && Passing(ps, now, i, sent, gaveUp)
      modifies this, packets
      ensures Valid() && TriesBounded() && count - next < old(count) - i
      ensures Passing(ps, now, next, more, moreGaveUp)
    {
      hide HasNumber, Covers, CoveredBy, AtTheLimit, Distinct, SentAgain, Resent, NoneExhausted, OnTime, Due;
      hide SentFrom, LeftOf;
      more, moreGaveUp, next := sent, gaveUp, i + 1;
      var packet := packets[i];
      IsDue(packet, now);
      if (now - packet.lastSendMs) % (SIZE_MAX + 1) > RESEND_TIMEOUT_MS {
        if packet.tries >= RESEND_TRIES_MAX {
          ThisExhausted(ps, now, packet);
          moreGaveUp := Abandon(i, gaveUp, ps, now);
          next := if i > 0 then i else 1;
          return;
        }
        more := SendAgain(i, now, sent, ps);
      } else {
        OnTimeSkips(ps, now, i, sent);
      }
    }

    /** What a pass that has come to `i` keeps, if it began with the packets `ps`. */
    ghost predicate Passing(ps: seq<Packet>, now: nat, i: nat, sent: seq<seq<byte>>, gaveUp: set<nat>)
      reads this, packets
    {
      && count <= packets.Length && (forall k :: i <= k < count ==> packets[k] in ps)
      && (forall g :: g in gaveUp ==> AtTheLimit(ps, g))
      && (forall n :: HasNumber(ps, n) ==> HasNumber(Contents(), n) || CoveredBy(gaveUp, n))
      && (forall d :: d in sent ==> SentFrom(ps, d, now))
      && (forall p :: p in Contents() ==> LeftOf(ps, p, now))
      && (NoneExhausted(ps, now) ==> OnTime(ps, now, i, sent) && gaveUp == {})
    }

    lemma PassBegins(now: nat)
      requires Valid()
      ensures Passing(Contents(), now, 0, [], {})
    {
      hide HasNumber, AtTheLimit, NoneExhausted, OnTime, LeftOf;
      OnTimeFirst(now);
      AllLeft(Contents(), now);
    }

    lemma PassEnds(ps: seq<Packet>, now: nat, i: nat, sent: seq<seq<byte>>, gaveUp: set<nat>)
      requires Passing(ps, now, i, sent, gaveUp) && i >= count
      ensures count <= packets.Length
      ensures forall g :: g in gaveUp ==> AtTheLimit(ps, g)
      ensures forall n :: HasNumber(ps, n) ==> HasNumber(Contents(), n) || CoveredBy(gaveUp, n)
      ensures forall d :: d in sent ==> SentFrom(ps, d, now)
      ensures forall p :: p in Contents() ==> LeftOf(ps, p, now)
      ensures NoneExhausted(ps, now) ==>
                gaveUp == {} && Contents() == Resent(ps, now) && sent == SentAgain(ps, now)
    {
      hide HasNumber, AtTheLimit, NoneExhausted, OnTime, LeftOf, SentFrom, CoveredBy, Resent, SentAgain;
      if NoneExhausted(ps, now) {
        OnTimeLast(ps, now, i, sent);
      }
    }

    /** Up to `i`, what was due has been sent, and nothing else has changed. */
    ghost predicate OnTime(ps: seq<Packet>, now: nat, i: nat, sent: seq<seq<byte>>)
      reads this, packets
    {
      && i <= |ps| == count <= packets.Length
      && Contents() == Resent(ps[..i], now) + ps[i..] && sent == SentAgain(ps[..i], now)
    }

    lemma OnTimeFirst(now: nat)
      requires Valid()
      ensures OnTime(Contents(), now, 0, [])
    {
    }

    lemma OnTimeLast(ps: seq<Packet>, now: nat, i: nat, sent: seq<seq<byte>>)
      requires OnTime(ps, now, i, sent) && i >= count
      ensures Contents() == Resent(ps, now) && sent == SentAgain(ps, now)
    {
      assert ps[..|ps|] == ps;
    }

    lemma OnTimeSkips(ps: seq<Packet>, now: nat, i: nat, sent: seq<seq<byte>>)
      requires Valid() && i < count && !Due(packets[i], now)
      ensures OnTime(ps, now, i, sent) ==> OnTime(ps, now, i + 1, sent)
    {
      hide Due, Resent, SentAgain;
      if OnTime(ps, now, i, sent) {
        OneMoreResent(ps, now, i);
        assert packets[i] == Contents()[i];
      }
    }

    method SendAgain(i: nat, now: nat, sent: seq<seq<byte>>, ghost ps: seq<Packet>) returns (more: seq<seq<byte>>)
      requires Valid() && TriesBounded() && i < count && packets[i].tries < RESEND_TRIES_MAX && Due(packets[i], now)
      modifies packets
      ensures Valid() && TriesBounded() && more == sent + [old(packets[i]).buf]
      ensures forall k :: 0 <= k < count && k != i ==> packets[k] == old(packets[k])
      ensures forall n :: HasNumber(Contents(), n) <==> HasNumber(old(Contents()), n)
      ensures old(packets[i] in ps && forall p :: p in Contents() ==> LeftOf(ps, p, now)) ==>
                && (forall p :: p in Contents() ==> LeftOf(ps, p, now))
                && SentFrom(ps, old(packets[i].buf), now)
      ensures old(OnTime(ps, now, i, sent)) ==> OnTime(ps, now, i + 1, more)
    {
      hide Due, Resent, SentAgain, HasNumber, Distinct, SentFrom, LeftOf;
      ghost var before, was := Contents(), packets[i];
      if OnTime(ps, now, i, sent) {
        OneMoreResent(ps, now, i);
        assert was == before[i] == ps[i];
      }
      more := sent + [packets[i].buf];
      Retry(i, now);
      assert Contents() == before[i := Again(was, now)];
      if was in ps && forall p :: p in before ==> LeftOf(ps, p, now) {
        DueIsSent(ps, was, now);
      }
    }
  }

  predicate Due(p: Packet, now: nat) {
    (now - p.lastSendMs) % (SIZE_MAX + 1) > RESEND_TIMEOUT_MS
  }

  /** No packet that is due has used up its tries. */
  predicate NoneExhausted(ps: seq<Packet>, now: nat) {
    forall i :: 0 <= i < |ps| && Due(ps[i], now) ==> ps[i].tries < RESEND_TRIES_MAX
  }

  /** A packet after it was sent once more. */
  function Again(p: Packet, now: nat): Packet {
    p.(lastSendMs := now, tries := p.tries + 1)
  }

  /** `d` is the payload of a packet of `ps` that was due and had tries left. */
  predicate SentFrom(ps: seq<Packet>, d: seq<byte>, now: nat) {
    exists p :: p in ps && Due(p, now) && p.tries < RESEND_TRIES_MAX && p.buf == d
  }

  /** `p` is a packet of `ps` as it was, or one that was due, as it is after it was sent. */
  predicate LeftOf(ps: seq<Packet>, p: Packet, now: nat) {
    p in ps || exists q :: q in ps && Due(q, now) && p == Again(q, now)
  }

  lemma AllLeft(ps: seq<Packet>, now: nat)
    ensures forall p :: p in ps ==> LeftOf(ps, p, now)
  {
  }

  lemma DueIsSent(ps: seq<Packet>, p: Packet, now: nat)
    requires p in ps && Due(p, now) && p.tries < RESEND_TRIES_MAX
    ensures SentFrom(ps, p.buf, now) && LeftOf(ps, Again(p, now), now)
  {
  }

  function Resent(ps: seq<Packet>, now: nat): (rs: seq<Packet>)
    ensures |rs| == |ps|
  {
    seq(|ps|, i requires 0 <= i < |ps| =>
      if Due(ps[i], now) then Again(ps[i], now) else ps[i])
  }

  /** What goes out: the packets that are due, in order. */
  function SentAgain(ps: seq<Packet>, now: nat): seq<seq<byte>> {
    if ps == [] then []
    else
      var last := ps[|ps| - 1];
      SentAgain(ps[..|ps| - 1], now) + if Due(last, now) then [last.buf] else []
  }

  /**
   With a clock that does not run backwards: a packet is sent again, and counted and timed
   as sent, exactly if more than 200 ms have passed; its number and payload stay.
   */
  lemma {:induction false} ResentMeans(ps: seq<Packet>, now: nat, i: nat)
    requires i < |ps| && ps[i].lastSendMs <= now <= SIZE_MAX
    ensures var p, again := ps[i], now - ps[i].lastSendMs > 200;
            && Resent(ps, now)[i] ==
               Packet(p.seqNum, if again then p.tries + 1 else p.tries, if again then now else p.lastSendMs, p.buf)
            && (again ==> p.buf in SentAgain(ps, now))
    decreases |ps|
  {
    if i < |ps| - 1 {
      ResentMeans(ps[..|ps| - 1], now, i);
    }
  }

  lemma OneMoreResent(ps: seq<Packet>, now: nat, i: nat)
    requires i < |ps|
    ensures var so := Resent(ps[..i], now) + ps[i..];
            && so[i] == ps[i]
            && Resent(ps[..i + 1], now) + ps[i + 1..] == so[i := if Due(ps[i], now) then Again(ps[i], now) else ps[i]]
    ensures SentAgain(ps[..i + 1], now) == SentAgain(ps[..i], now) + if Due(ps[i], now) then [ps[i].buf] else []
  {
    assert ps[..i + 1][..i] == ps[..i];
  }

  lemma IsDue(p: Packet, now: nat)
    ensures Due(p, now) <==> (now - p.lastSendMs) % (SIZE_MAX + 1) > RESEND_TIMEOUT_MS
  {
  }

  lemma ThisExhausted(ps: seq<Packet>, now: nat, p: Packet)
    requires p in ps && Due(p, now) && p.tries >= RESEND_TRIES_MAX
    ensures !NoneExhausted(ps, now)
  {
  }

  predicate AtTheLimit(ps: seq<Packet>, n: nat) {
    exists p :: p in ps && p.seqNum == n && p.tries == RESEND_TRIES_MAX
  }

  lemma LimitReached(ps: seq<Packet>, p: Packet)
    requires p in ps && p.tries == RESEND_TRIES_MAX
    ensures AtTheLimit(ps, p.seqNum)
  {
  }

  predicate CoveredBy(acks: set<nat>, n: nat) {
    exists a :: a in acks && Covers(a, n)
  }

  lemma CoveredByMore(acks: set<nat>, a: nat)
    ensures forall n :: CoveredBy(acks + {a}, n) <==> CoveredBy(acks, n) || Covers(a, n)
  {
    assert a in acks + {a};
    forall n | CoveredBy(acks, n) ensures CoveredBy(acks + {a}, n) {
      var b :| b in acks && Covers(b, n);
      assert b in acks + {a};
    }
  }
}
