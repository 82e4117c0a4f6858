/**
 Key positions: how a sender hands out intervals of its key stream (lib/src/takion.c),
 and how a receiver rebuilds a 64-bit position from its low 32 bits (lib/src/gkcrypt.c).
 */
module KeyPosSpec {
  import opened Common
  import opened SeqNum

  /** chiaki_key_state_request_pos: the position with these low bits, given the last committed one. */
  function Rebuild(prev: nat, low: nat): (pos: nat)
    requires prev < U64 && low < U32
    ensures pos < U64 && pos % U32 == low
  {
    var prevLow, high := prev % U32, prev / U32;
    var high' :=
      if Gt(W32, low, prevLow) && low < prevLow then (high + 1) % U32
      else if Lt(W32, low, prevLow) && low > prevLow && high > 0 then high - 1
      else high;
    high' * U32 + low
  }

  /**
   The positions that are recovered: those less than 2^31 from the last committed one (also
   across the end of the 64-bit range), those exactly 2^31 away with the same high word, and,
   as long as the committed high word is still 0, everything above it within that word.
   */
  predicate Recoverable(prev: nat, pos: nat) {
    || -0x8000_0000 < pos - prev < 0x8000_0000
    || (prev / U32 == pos / U32 && (pos - prev == 0x8000_0000 || prev - pos == 0x8000_0000))
    || (prev / U32 == 0 && pos / U32 == 0 && prev < pos)
    || pos + U64 - prev < 0x8000_0000
  }

  lemma Wire32(a: nat, b: nat)
    requires a < U32 && b < U32
    ensures Lt(W32, a, b) <==> 0 < b - a < 0x8000_0000 || a - b > 0x8000_0000
    ensures Gt(W32, a, b) <==> 0 < a - b < 0x8000_0000 || b - a > 0x8000_0000
  {
  }

  /** A position is rebuilt from its low 32 bits exactly when it is recoverable. */
  lemma RebuildExact(prev: nat, pos: nat)
    requires prev < U64 && pos < U64
    ensures Rebuild(prev, pos % U32) == pos <==> Recoverable(prev, pos)
  {
    hide Lt, Gt;
    Wire32(pos % U32, prev % U32);
    var r := Rebuild(prev, pos % U32);
    assert r == pos <==> r / U32 == pos / U32;
  }

  /** A packet as the receiver sees it: its true position, and whether it turns out authentic. */
  datatype Packet = Packet(pos: nat, authentic: bool)

  /** The last committed position after a run of packets. */
  function Committed(ps: seq<Packet>): (c: nat)
    requires forall p :: p in ps ==> p.pos < U64
    ensures c < U64
  {
    if ps == [] then 0
    else
      var c, p := Committed(ps[..|ps| - 1]), ps[|ps| - 1];
      if p.authentic then Rebuild(c, p.pos % U32) else c
  }

  /** The last authentic position, or 0. */
  function LastAuthentic(ps: seq<Packet>): nat {
    if ps == [] then 0
    else if ps[|ps| - 1].authentic then ps[|ps| - 1].pos
    else LastAuthentic(ps[..|ps| - 1])
  }

  /**
   Over any run in which every authentic packet is recoverable from the authentic one before
   it, what is committed is always the true position of the last authentic packet; so any
   packet is understood exactly when it is recoverable from that.
   */
  lemma {:induction false} CommittedIsTrue(ps: seq<Packet>)
    requires forall p :: p in ps ==> p.pos < U64
    requires forall i :: 0 <= i < |ps| && ps[i].authentic ==> Recoverable(LastAuthentic(ps[..i]), ps[i].pos)
    ensures Committed(ps) == LastAuthentic(ps)
    decreases |ps|
  {
    if ps != [] {
      var n := |ps| - 1;
      assert forall i :: 0 <= i < n ==> ps[..n][..i] == ps[..i];
      CommittedIsTrue(ps[..n]);
      if ps[n].authentic {
        RebuildExact(Committed(ps[..n]), ps[n].pos);
      }
    }
  }

  lemma RunUnderstands(ps: seq<Packet>, pos: nat)
    requires pos < U64 && forall p :: p in ps ==> p.pos < U64
    requires forall i :: 0 <= i < |ps| && ps[i].authentic ==> Recoverable(LastAuthentic(ps[..i]), ps[i].pos)
    ensures Rebuild(Committed(ps), pos % U32) == pos <==> Recoverable(LastAuthentic(ps), pos)
  {
    CommittedIsTrue(ps);
    RebuildExact(Committed(ps), pos);
  }

  /** What an advance adds: the size plus its own remainder, which is not rounding up to a block. */
  function Advance(size: nat): nat {
    size + size % BLOCK
  }

  /**
   It is a whole number of blocks, and then also what rounding up would give, exactly for a
   whole number of half blocks.
   */
  lemma AdvanceInBlocksIff(size: nat)
    ensures Advance(size) % BLOCK == 0 <==> size % (BLOCK / 2) == 0
    ensures Advance(size) == (size + BLOCK - 1) / BLOCK * BLOCK <==> size % (BLOCK / 2) == 0
  {
    var q, r := size / BLOCK, size % BLOCK;
    assert Advance(size) == BLOCK * q + 2 * r;
    assert (size + BLOCK - 1) / BLOCK == if r == 0 then q else q + 1;
  }

  /** A packet that only needs a position for its MAC, or one whose payload is encrypted as well. */
  datatype Outgoing = Plain(size: nat) | Encrypted(payloadSize: nat)

  function Request(o: Outgoing): nat {
    match o
    case Plain(size) => size
    case Encrypted(n) => n + BLOCK
  }

  /** Key-stream bytes `from`, ..., `to - 1`. */
  datatype Interval = Interval(from: nat, to: nat)

  datatype Sender = Sender(keyPos: nat, used: seq<Interval>)

  /** A send is refused, and uses nothing, when its advance would pass the end of the range. */
  function Send(s: Sender, o: Outgoing): Sender {
    if U64 - 1 - s.keyPos < Advance(Request(o)) then s
    else
      Sender(s.keyPos + Advance(Request(o)),
             match o
             case Plain(_) => s.used
             case Encrypted(n) => s.used + [Interval(s.keyPos + BLOCK, s.keyPos + BLOCK + n)])
  }

  /**
   An accepted packet of `n` encrypted bytes, whose position is the counter before it, is
   encrypted from 16 bytes behind that position on; the counter moves past the end of that
   by the remainder of `n`. A plain packet moves it by its size and remainder alone.
   */
  lemma EncryptsBehindPosition(s: Sender, n: nat)
    requires s.keyPos + n + n % 16 + 16 < U64
    ensures var t := Send(s, Encrypted(n));
            && t.used == s.used + [Interval(s.keyPos + 16, s.keyPos + 16 + n)]
            && t.keyPos == s.keyPos + 16 + n + n % 16
            && Send(s, Plain(n)) == Sender(s.keyPos + n + n % 16, s.used)
  {
    AddRemainder(16, n, 16);
  }

  function SendAll(os: seq<Outgoing>): Sender {
    if os == [] then Sender(0, []) else Send(SendAll(os[..|os| - 1]), os[|os| - 1])
  }

  /** Over any run of sends, no byte of the key stream encrypts two packets. */
  lemma {:induction false} NoKeyStreamReuse(os: seq<Outgoing>)
    ensures var s := SendAll(os);
            && (forall i :: 0 <= i < |s.used| ==> s.used[i].from <= s.used[i].to <= s.keyPos)
            && (forall i, j :: 0 <= i < j < |s.used| ==> s.used[i].to <= s.used[j].from)
            && s.keyPos < U64
    decreases |os|
  {
    if os != [] {
      NoKeyStreamReuse(os[..|os| - 1]);
    }
  }
}

module KeyPos {
  import opened Common
  import opened KeyPosSpec
  import SeqNum

  /** ChiakiKeyState. */
  class KeyState {
    var prev: nat

    ghost predicate Valid()
      reads this
    {
      prev < U64
    }

    constructor ()
      ensures Valid() && prev == 0
    {
      prev := 0;
    }

    method RequestPos(low: nat, commit: bool) returns (res: nat)
      requires Valid() && low < U32
      modifies this
      ensures Valid() && res == Rebuild(old(prev), low)
      ensures prev == if commit then res else old(prev)
    {
      var prevLow, high := prev % U32, prev / U32;
      if SeqNum.Gt(SeqNum.W32, low, prevLow) && low < prevLow {
        high := (high + 1) % U32;
      } else if SeqNum.Lt(SeqNum.W32, low, prevLow) && low > prevLow && high != 0 {
        high := high - 1;
      }
      res := high * U32 + low;
      if commit {
        prev := res;
      }
    }

    method Commit(pos: nat)
      requires pos < U64
      modifies this
      ensures Valid() && prev == pos
    {
      prev := pos;
    }
  }

  /** The sending side's counter, with the intervals it has encrypted with. */
  class LocalCrypt {
    var keyPosLocal: nat
    ghost var used: seq<Interval>

    ghost function Model(): Sender
      reads this
    {
      Sender(keyPosLocal, used)
    }

    constructor ()
      ensures Model() == Sender(0, [])
    {
      keyPosLocal, used := 0, [];
    }

    /** chiaki_takion_crypt_advance_key_pos with a key present; `None` is the overflow error. */
    method AdvanceKeyPos(dataSize: nat) returns (keyPos: Option<nat>)
      requires dataSize + BLOCK <= U64 && keyPosLocal < U64
      modifies this`keyPosLocal
      ensures keyPos.None? <==> old(keyPosLocal) + Advance(dataSize) >= U64
      ensures keyPos.Some? ==> keyPos.value == old(keyPosLocal) < U64
      ensures keyPosLocal == if keyPos.Some? then old(keyPosLocal) + Advance(dataSize) else old(keyPosLocal)
      ensures keyPosLocal < U64
    {
      var size := (dataSize + dataSize % BLOCK) % U64;
      var cur := keyPosLocal;
      if U64 - 1 - cur < size {
        return None;
      }
      keyPosLocal := cur + size;
      keyPos := Some(cur);
    }

    /** takion_send_feedback_packet: one block past the position, the payload is encrypted. */
    method SendFeedback(payloadSize: nat) returns (ok: bool)
      requires payloadSize + 2 * BLOCK <= U64 && keyPosLocal < U64
      modifies this
      ensures Model() == Send(old(Model()), Encrypted(payloadSize))
      ensures ok <==> old(keyPosLocal) + Advance(payloadSize + BLOCK) < U64
    {
      var keyPos := AdvanceKeyPos(payloadSize + BLOCK);
      ok := keyPos.Some?;
      if ok {
        used := used + [Interval(keyPos.value + BLOCK, keyPos.value + BLOCK + payloadSize)];
      }
    }
  }
}
