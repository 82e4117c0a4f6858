/** The producer's progress, and the crypt object of lib/src/gkcrypt.c over its real buffer. */
module KeyCacheProgress {
  import opened Common
  import opened KeyStreamSpec
  import opened KeyCacheSpec

  /** One round of the producer with no reader in between. */
  ghost function Produce(enc: Cipher, iv: seq<byte>, c: Cache): (d: Cache)
    requires IsCipher(enc) && Inv(enc, iv, c) && c.phase.Waiting? && WakesUp(c)
    ensures Inv(enc, iv, d) && d.phase.Waiting? && d.last == c.last && d.size == c.size
  {
    WakeKeepsInv(enc, iv, c);
    FinishKeepsInv(enc, iv, Next(enc, iv, c, Wake));
    Next(enc, iv, Next(enc, iv, c, Wake), Finish)
  }

  /** How far the reader is ahead of the oldest cached position. */
  function Lead(c: Cache): nat {
    if c.last > c.min then c.last - c.min else 0
  }

  /** A round ends being behind for good; then the lead shrinks, or the buffer fills at an unchanged lead. */
  lemma RoundProgress(enc: Cipher, iv: seq<byte>, c: Cache)
    requires IsCipher(enc) && Inv(enc, iv, c) && c.phase.Waiting? && WakesUp(c)
    ensures var d := Produce(enc, iv, c);
            && !Behind(d)
            && (!Behind(c) ==> Lead(d) < Lead(c) || (Lead(d) == Lead(c) && d.populated > c.populated))
  {
    hide KS, Slice, Slot, At;
    SkippedPosition(c.last);
    AtLeastOneChunk(c.size);
  }

  /**
   Without new requests the producer comes to rest after finitely many rounds: the buffer
   is full and the last request lies in its first half.
   */
  ghost function Settled(enc: Cipher, iv: seq<byte>, c: Cache): (d: Cache)
    requires IsCipher(enc) && Inv(enc, iv, c) && c.phase.Waiting?
    ensures Inv(enc, iv, d) && d.last == c.last && d.size == c.size
    ensures d.populated == d.size && d.last <= d.min + d.size / 2
    decreases Behind(c), Lead(c), c.size - c.populated
  {
    if WakesUp(c) then
      RoundProgress(enc, iv, c);
      Settled(enc, iv, Produce(enc, iv, c))
    else c
  }

  /** How often it skips ahead on the way. */
  ghost function Skips(enc: Cipher, iv: seq<byte>, c: Cache): (n: nat)
    requires IsCipher(enc) && Inv(enc, iv, c) && c.phase.Waiting?
    decreases Behind(c), Lead(c), c.size - c.populated
  {
    if WakesUp(c) then
      RoundProgress(enc, iv, c);
      (if Behind(c) then 1 else 0) + Skips(enc, iv, Produce(enc, iv, c))
    else 0
  }

  /** It skips exactly once if it starts behind, and never otherwise. */
  lemma {:induction false} SkipsOnce(enc: Cipher, iv: seq<byte>, c: Cache)
    requires IsCipher(enc) && Inv(enc, iv, c) && c.phase.Waiting?
    ensures Skips(enc, iv, c) == if Behind(c) then 1 else 0
    decreases Behind(c), Lead(c), c.size - c.populated
  {
    if WakesUp(c) {
      RoundProgress(enc, iv, c);
      SkipsOnce(enc, iv, Produce(enc, iv, c));
    }
  }

  /** With two chunks or more the window never starts after the last request, in any interleaving. */
  lemma {:induction false} WindowStaysBehindReaders(enc: Cipher, iv: seq<byte>, size: nat, buf: seq<byte>,
                                                    steps: seq<Step>)
    requires IsCipher(enc) && size >= 2 * CHUNK && size % CHUNK == 0 && |buf| == size && size + CHUNK <= U64
    ensures var c := Run(enc, iv, Init(size, buf), steps); c.min <= c.last
    decreases |steps|
  {
    hide KS, Slice, Slot, At;
    if steps != [] {
      WindowStaysBehindReaders(enc, iv, size, buf, steps[..|steps| - 1]);
      SkippedPosition(Run(enc, iv, Init(size, buf), steps[..|steps| - 1]).last);
    }
  }

  /** With a single chunk it can: one request into the second half of the only chunk makes it slide past. */
  lemma OneChunkOvertakes(enc: Cipher, iv: seq<byte>, buf: seq<byte>)
    requires IsCipher(enc) && |buf| == CHUNK
    ensures var c := Run(enc, iv, Init(CHUNK, buf), [Wake, Finish, Read(0, 0x900), Wake]); c.min > c.last
  {
    hide KS, Slice, Slot, At;
    var steps := [Wake, Finish, Read(0, 0x900), Wake];
    assert steps[..3] == [Wake, Finish, Read(0, 0x900)] && steps[..3][..2] == [Wake, Finish];
    assert steps[..3][..2][..1] == [Wake] && [Wake][..0] == [];
    var c0 := Init(CHUNK, buf);
    assert Inv(enc, iv, c0);
    hide Inv;
    assert Run(enc, iv, c0, []) == c0;
    var c1 := Run(enc, iv, c0, [Wake]);
    assert c1.populated == 0 && c1.phase == Generating && c1.min == c1.last == 0;
    var c2 := Run(enc, iv, c0, [Wake, Finish]);
    assert c2.populated == CHUNK && c2.phase == Waiting && c2.min == c2.last == 0;
    var c3 := Run(enc, iv, c0, [Wake, Finish, Read(0, 0x900)]);
    assert c3.populated == CHUNK && c3.phase == Waiting && c3.min == 0 && c3.last == 0x900;
  }
}

module GKCrypt {
  import opened Common
  import opened Bytes
  import opened KeyStreamSpec
  import opened KeyCacheSpec
  import KeyStream
  import KeyCacheProgress

  lemma ChunkPlace(c: Cache)
    requires Shaped(c) && c.phase.Generating?
    ensures ChunkOffset(c) == (c.start + c.populated) % c.size && ChunkOffset(c) + CHUNK <= c.size
    ensures (c.min + c.populated) % BLOCK == 0 && c.min + c.populated + CHUNK <= U64
  {
    hide Slot;
    ChunkFits(c);
    SumOfMultiples(c.min, c.populated, CHUNK);
    ChunksAreBlocks(c.min + c.populated);
    SlotIndex(c);
  }

  lemma SlotIndex(c: Cache)
    requires c.size > 0
    ensures ChunkOffset(c) == (c.start + c.populated) % c.size
  {
  }

  lemma OffsetIsSlot(size: nat, start: nat, k: nat)
    requires size > 0
    ensures (k + start) % size == Slot(size, start, k)
  {
  }

  lemma WholeBlocks(keyPos: nat, size: nat)
    ensures var pre := keyPos % BLOCK;
            var full := ((pre + size + BLOCK - 1) / BLOCK) * BLOCK;
            && (keyPos - pre) % BLOCK == 0 && full % BLOCK == 0
            && pre <= keyPos && pre + size <= full < pre + size + BLOCK
  {
    var pre, q := keyPos % BLOCK, keyPos / BLOCK;
    DivModUnique(keyPos - pre, BLOCK, q, 0);
    var t := (pre + size + BLOCK - 1) / BLOCK;
    DivModUnique(t * BLOCK, BLOCK, t, 0);
  }

  lemma ChunksAreBlocks(x: nat)
    requires x % CHUNK == 0
    ensures x % BLOCK == 0
  {
  }

  class Crypt {
    const enc: Cipher
    const iv: seq<byte>
    const keyBuf: array<byte>
    var populated: nat
    var min: nat
    var start: nat
    var last: nat
    ghost var phase: Phase

    ghost function Model(): Cache
      reads this, keyBuf
    {
      Cache(keyBuf.Length, keyBuf[..], populated, min, start, last, phase)
    }

    ghost predicate Valid()
      reads this, keyBuf
    {
      IsCipher(enc) && |iv| == BLOCK && (keyBuf.Length > 0 ==> Inv(enc, iv, Model()))
    }

    /** Without chunks there is no buffer and no producer. */
    constructor (enc: Cipher, iv: seq<byte>, chunks: nat)
      requires IsCipher(enc) && |iv| == BLOCK && (chunks + 1) * CHUNK <= U64
      ensures Valid() && this.enc == enc && this.iv == iv && keyBuf.Length == chunks * CHUNK
      ensures Model() == Init(keyBuf.Length, keyBuf[..]) && fresh(keyBuf)
    {
      this.enc, this.iv := enc, iv;
      keyBuf := new byte[chunks * CHUNK](_ => 0);
      populated, min, start, last, phase := 0, 0, 0, 0, Waiting;
    }

    /**
     An aligned request, served from the buffer or generated: either way the caller gets
     the key stream of its positions. `signal` says whether the producer is woken.
     */
    method GetKeyStream(keyPos: nat, buf: array<byte>) returns (signal: bool)
      requires Valid() && buf != keyBuf
      requires keyPos % BLOCK == 0 && buf.Length % BLOCK == 0
      requires keyPos + buf.Length + keyBuf.Length + CHUNK <= U64
      modifies this`last, buf
      ensures Valid()
      ensures buf[..] == Slice(enc, iv, keyPos, buf.Length)
      ensures keyBuf.Length > 0 ==>
                && Model() == Next(enc, iv, old(Model()), Read(keyPos, buf.Length))
                && (signal <==> ShouldGenerate(Model()))
    {
      signal := false;
      if keyBuf.Length == 0 {
        KeyStream.GenKeyStream(enc, iv, keyPos, buf, 0, buf.Length);
        assert buf[..] == buf[0..0 + buf.Length];
        return;
      }
      StepKeepsInv(enc, iv, Model(), Read(keyPos, buf.Length));
      if keyPos + buf.Length > last {
        last := keyPos + buf.Length;
      }
      signal := last > min + populated / 2;
      if keyPos < min || keyPos + buf.Length >= min + populated {
        KeyStream.GenKeyStream(enc, iv, keyPos, buf, 0, buf.Length);
        assert buf[..] == buf[0..0 + buf.Length];
      } else {
        CopyOut(keyPos, buf);
      }
    }

    /** Lines 315-325: one or two memcpy calls. */
    method CopyOut(keyPos: nat, buf: array<byte>)
      requires Valid() && keyBuf.Length > 0 && buf != keyBuf && !Misses(Model(), keyPos, buf.Length)
      modifies buf
      ensures Valid()
      ensures buf[..] == Slice(enc, iv, keyPos, buf.Length)
    {
      hide KS, Slice, Inv, At, IsCipher, Slot, Pieces;
      ghost var c := Model();
      var n := buf.Length;
      CopiedIsSlice(enc, iv, c, keyPos, n);
      var offset := (keyPos - min + start) % keyBuf.Length;
      OffsetIsSlot(keyBuf.Length, start, keyPos - min);
      CopyFrom(offset, buf);
    }

    method CopyFrom(offset: nat, buf: array<byte>)
      requires buf != keyBuf && offset < keyBuf.Length && buf.Length <= keyBuf.Length
      modifies buf
      ensures buf[..] == Pieces(keyBuf[..], offset, buf.Length)
    {
      var n := buf.Length;
      var end := offset + n;
      if end > keyBuf.Length {
        var excess := end - keyBuf.Length;
        forall i | 0 <= i < n - excess {
          buf[i] := keyBuf[offset + i];
        }
        ghost var first := buf[..n - excess];
        forall i | 0 <= i < excess {
          buf[n - excess + i] := keyBuf[i];
        }
        assert first == keyBuf[offset..] && buf[..] == first + keyBuf[..excess];
      } else {
        forall i | 0 <= i < n {
          buf[i] := keyBuf[offset + i];
        }
        assert buf[..] == keyBuf[offset..end];
      }
    }

    /** The producer prepares a chunk and drops the mutex (lines 522-538 and 476-481). */
    method WakeUp()
      requires Valid() && keyBuf.Length > 0 && phase.Waiting? && WakesUp(Model())
      modifies this
      ensures Valid() && phase.Generating?
      ensures Model() == Next(enc, iv, old(Model()), Wake)
    {
      WakeKeepsInv(enc, iv, Model());
      if last > min + populated {
        min, start, populated := (last / CHUNK) * CHUNK, 0, 0;
      } else if populated == keyBuf.Length {
        AtLeastOneChunk(keyBuf.Length);
        start, min, populated := (start + CHUNK) % keyBuf.Length, min + CHUNK, populated - CHUNK;
      }
      phase := Generating;
    }

    /** It generates the chunk in place and takes the mutex again (lines 476-490). */
    method GenerateNextChunk()
      requires Valid() && keyBuf.Length > 0 && phase.Generating?
      modifies this, keyBuf
      ensures Valid() && phase.Waiting?
      ensures Model() == Next(enc, iv, old(Model()), Finish)
    {
      hide KS, Slice, Inv, Slot, At, Shaped;
      ghost var c := Model();
      FinishKeepsInv(enc, iv, c);
      ChunkPlace(c);
      var bufOffset := (start + populated) % keyBuf.Length;
      FillChunk(bufOffset, min + populated);
      populated := populated + CHUNK;
      phase := Waiting;
    }

    method FillChunk(bufOffset: nat, keyPos: nat)
      requires IsCipher(enc) && |iv| == BLOCK && keyPos % BLOCK == 0 && keyPos + CHUNK <= U64
      requires bufOffset + CHUNK <= keyBuf.Length
      modifies keyBuf
      ensures keyBuf[..] == old(keyBuf[..bufOffset]) + Slice(enc, iv, keyPos, CHUNK) + old(keyBuf[bufOffset + CHUNK..])
    {
      hide KS, Slice;
      KeyStream.GenKeyStream(enc, iv, keyPos, keyBuf, bufOffset, CHUNK);
      assert keyBuf[..] == keyBuf[..bufOffset] + keyBuf[bufOffset..bufOffset + CHUNK] + keyBuf[bufOffset + CHUNK..];
    }

    /** chiaki_gkcrypt_decrypt, for any position and size: whole blocks are fetched and the padding skipped. */
    method Decrypt(keyPos: nat, buf: array<byte>)
      requires Valid() && buf != keyBuf
      requires keyPos + buf.Length + 2 * BLOCK + keyBuf.Length + CHUNK <= U64
      modifies this`last, buf
      ensures Valid()
      ensures buf[..] == Decrypted(enc, iv, keyPos, old(buf[..]))
    {
      hide KS, Slice, Valid, Model, Inv, Xor;
      var paddingPre := keyPos % BLOCK;
      var fullSize := ((paddingPre + buf.Length + BLOCK - 1) / BLOCK) * BLOCK;
      WholeBlocks(keyPos, buf.Length);
      var keyStream := new byte[fullSize];
      var _ := GetKeyStream(keyPos - paddingPre, keyStream);
      SliceOfSlice(enc, iv, keyPos - paddingPre, fullSize, paddingPre, buf.Length);
      XorBytes(buf, keyStream, paddingPre);
    }

    /** xor_bytes of lib/src/utils.h, with the source at an offset. */
    static method XorBytes(dst: array<byte>, src: array<byte>, from: nat)
      requires dst != src && from + dst.Length <= src.Length
      modifies dst
      ensures dst[..] == Xor(old(dst[..]), src[from..from + dst.Length])
    {
      hide XorByte;
      ghost var text, key := dst[..], src[from..from + dst.Length];
      for i := 0 to dst.Length
        invariant forall k :: 0 <= k < i ==> dst[k] == XorByte(text[k], key[k])
        invariant forall k :: i <= k < dst.Length ==> dst[k] == text[k]
      {
        assert key[i] == src[from + i];
        dst[i] := XorByte(dst[i], src[from + i]);
      }
      assert dst[..] == Xor(text, key);
    }
  }

  /** The producer thread without interference: it runs until it has to wait. */
  method ProduceUntilSettled(c: Crypt)
    requires c.Valid() && c.keyBuf.Length > 0 && c.phase.Waiting?
    modifies c, c.keyBuf
    ensures c.Valid() && c.Model() == KeyCacheProgress.Settled(c.enc, c.iv, old(c.Model()))
  {
    while c.populated < c.keyBuf.Length || c.last > c.min + c.populated / 2
      invariant c.Valid() && c.phase.Waiting?
      invariant KeyCacheProgress.Settled(c.enc, c.iv, c.Model())
              == KeyCacheProgress.Settled(c.enc, c.iv, old(c.Model()))
      decreases Behind(c.Model()), KeyCacheProgress.Lead(c.Model()), c.keyBuf.Length - c.populated
    {
      KeyCacheProgress.RoundProgress(c.enc, c.iv, c.Model());
      c.WakeUp();
      c.GenerateNextChunk();
    }
  }
}
