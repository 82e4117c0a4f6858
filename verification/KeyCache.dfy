/**
 The key-stream cache of lib/src/gkcrypt.c: a circular buffer that a producer thread fills
 ahead of the readers. A step of the model is what happens while the mutex is held; between
 Wake and Finish the producer has dropped it, and Scribble is any write it makes meanwhile.
 */
module KeyCacheSpec {
  import opened Common
  import opened KeyStreamSpec

  const CHUNK := 0x1000

  datatype Phase = Waiting | Generating | Stopped

  datatype Cache = Cache(size: nat, buf: seq<byte>, populated: nat, min: nat, start: nat, last: nat, phase: Phase)

  datatype Step = Read(pos: nat, n: nat) | Wake | Scribble(i: nat, b: byte) | Finish | Fail

  /** The buffer index `k` places after `start`. */
  function Slot(size: nat, start: nat, k: nat): (i: nat)
    requires size > 0
    ensures i < size
  {
    (start + k) % size
  }

  lemma SlotSlides(size: nat, start: nat, k: nat)
    requires size > 0
    ensures Slot(size, Slot(size, start, CHUNK), k) == Slot(size, start, CHUNK + k)
  {
    AddRemainder(start + CHUNK, k, size);
    assert start + CHUNK + k == start + (CHUNK + k);
  }

  /** Indices within one round of the buffer are distinct. */
  lemma SlotsDiffer(size: nat, start: nat, j: nat, k: nat)
    requires j < k < size
    ensures Slot(size, start, j) != Slot(size, start, k)
  {
    ModInjective(start + j, start + k, size);
  }

  /** A chunk never wraps around the end of the buffer. */
  lemma SlotOfChunk(size: nat, start: nat, k: nat)
    requires size > 0 && size % CHUNK == 0 && start % CHUNK == 0 && k % CHUNK == 0
    ensures Slot(size, start, k) % CHUNK == 0 && Slot(size, start, k) + CHUNK <= size
  {
    SumOfMultiples(start, k, CHUNK);
    RemainderOfMultiple(start + k, CHUNK, size);
  }

  /** Going on by `i` from an index wraps around at most once. */
  lemma SlotWraps(size: nat, start: nat, k: nat, i: nat)
    requires size > 0 && i <= size
    ensures var o := Slot(size, start, k);
            Slot(size, start, k + i) == if o + i < size then o + i else o + i - size
  {
    var x := start + k;
    var o, q := x % size, x / size;
    assert x == size * q + o && size * (q + 1) == size * q + size;
    if o + i < size {
      DivModUnique(start + (k + i), size, q, o + i);
    } else {
      DivModUnique(start + (k + i), size, q + 1, o + i - size);
    }
  }

  function Init(size: nat, buf: seq<byte>): Cache {
    Cache(size, buf, 0, 0, 0, 0, Waiting)
  }

  predicate ShouldGenerate(c: Cache) {
    c.last > c.min + c.populated / 2
  }

  /** What the producer waits for. */
  predicate WakesUp(c: Cache) {
    c.populated < c.size || ShouldGenerate(c)
  }

  /** Readers have already asked for more than there is. */
  predicate Behind(c: Cache) {
    c.last > c.min + c.populated
  }

  /** Before it drops the mutex, the producer skips ahead if it is behind, or frees the oldest chunk if full. */
  function Prepared(c: Cache): Cache
    requires c.size > 0
  {
    if Behind(c) then
      c.(min := (c.last / CHUNK) * CHUNK, start := 0, populated := 0)
    else if c.populated == c.size && c.populated >= CHUNK then
      c.(start := Slot(c.size, c.start, CHUNK), min := c.min + CHUNK, populated := c.populated - CHUNK)
    else
      c
  }

  /** Where the chunk in the making lies in the buffer. */
  function ChunkOffset(c: Cache): nat
    requires c.size > 0
  {
    Slot(c.size, c.start, c.populated)
  }

  predicate Shaped(c: Cache) {
    && c.size > 0 && c.size % CHUNK == 0 && |c.buf| == c.size
    && c.start < c.size && c.start % CHUNK == 0
    && c.populated % CHUNK == 0 && c.populated <= c.size
    && c.min % CHUNK == 0
    && (c.phase.Generating? ==> c.populated + CHUNK <= c.size)
    && (c.min == 0 || c.min < c.last + CHUNK)
    && c.last + c.size + CHUNK <= U64
  }

  /** Requests stay clear of the end of the 64-bit range. */
  predicate Enabled(c: Cache, step: Step) {
    match step
    case Read(pos, n) => pos + n + c.size + CHUNK <= U64
    case Wake => c.phase.Waiting? && WakesUp(c)
    case Scribble(i, _) => c.phase.Generating? && i < CHUNK
    case Finish => c.phase.Generating?
    case Fail => c.phase.Generating?
  }

  ghost function Next(enc: Cipher, iv: seq<byte>, c: Cache, step: Step): (d: Cache)
    requires IsCipher(enc) && Shaped(c) && Enabled(c, step)
    ensures d.size == c.size && |d.buf| == c.size
  {
    ChunkFits(c);
    match step
    case Read(pos, n) => c.(last := if pos + n > c.last then pos + n else c.last)
    case Wake => Prepared(c).(phase := Generating)
    case Scribble(i, b) => c.(buf := c.buf[ChunkOffset(c) + i := b])
    case Finish =>
      c.(buf := c.buf[..ChunkOffset(c)] + Slice(enc, iv, c.min + c.populated, CHUNK) + c.buf[ChunkOffset(c) + CHUNK..],
         populated := c.populated + CHUNK, phase := Waiting)
    case Fail => c.(phase := Stopped)
  }

  lemma ChunkFits(c: Cache)
    requires Shaped(c)
    ensures ChunkOffset(c) % CHUNK == 0 && ChunkOffset(c) + CHUNK <= c.size
  {
    SlotOfChunk(c.size, c.start, c.populated);
  }

  /** The cached byte `k` places after the lowest position. */
  function At(c: Cache, k: nat): byte
    requires c.size > 0 && |c.buf| == c.size
  {
    c.buf[Slot(c.size, c.start, k)]
  }

  /** Every populated byte is the key stream's byte of its position. */
  ghost predicate Inv(enc: Cipher, iv: seq<byte>, c: Cache): (holds: bool)
    requires IsCipher(enc)
    ensures holds ==> Shaped(c)
  {
    Shaped(c) && forall k :: 0 <= k < c.populated ==> At(c, k) == KS(enc, iv, c.min + k)
  }

  /** The chunk in the making lies outside everything a reader can be given. */
  lemma ChunkIsDisjoint(c: Cache, k: nat, i: nat)
    requires Shaped(c) && c.phase.Generating? && k < c.populated && i < CHUNK
    ensures Slot(c.size, c.start, k) != ChunkOffset(c) + i
  {
    hide Slot;
    ChunkIndex(c, i);
    SlotsDiffer(c.size, c.start, k, c.populated + i);
  }

  lemma ChunkIndex(c: Cache, i: nat)
    requires Shaped(c) && i < CHUNK
    ensures ChunkOffset(c) + i == Slot(c.size, c.start, c.populated + i)
  {
    hide Slot;
    ChunkFits(c);
    SlotWraps(c.size, c.start, c.populated, i);
  }

  lemma PreparedShaped(c: Cache)
    requires Shaped(c) && WakesUp(c)
    ensures Shaped(Prepared(c).(phase := Generating))
  {
    hide Slot;
    if Behind(c) {
      SkippedPosition(c.last);
      AtLeastOneChunk(c.size);
    } else if c.populated == c.size {
      AtLeastOneChunk(c.size);
      SlotOfChunk(c.size, c.start, CHUNK);
      OneChunkOn(c.min);
      OneChunkOn(c.populated - CHUNK);
    } else {
      ChunksApart(c.populated, c.size);
    }
  }

  lemma OneChunkOn(x: nat)
    ensures (x + CHUNK) % CHUNK == x % CHUNK
  {
  }

  lemma ChunksApart(a: nat, b: nat)
    requires a % CHUNK == 0 && b % CHUNK == 0 && a < b
    ensures a + CHUNK <= b
  {
  }

  lemma SkippedPosition(last: nat)
    ensures (last / CHUNK) * CHUNK % CHUNK == 0 && last - CHUNK < (last / CHUNK) * CHUNK <= last
  {
  }

  lemma AtLeastOneChunk(size: nat)
    requires size > 0 && size % CHUNK == 0
    ensures size >= CHUNK
  {
  }

  lemma WakeKeepsInv(enc: Cipher, iv: seq<byte>, c: Cache)
    requires IsCipher(enc) && Inv(enc, iv, c) && WakesUp(c)
    ensures Inv(enc, iv, Prepared(c).(phase := Generating))
  {
    hide KS, Slot, At;
    PreparedShaped(c);
    var d := Prepared(c).(phase := Generating);
    forall k | 0 <= k < d.populated ensures At(d, k) == KS(enc, iv, d.min + k) {
      if c.populated == c.size {
        SlidAt(c, k);
        assert At(c, CHUNK + k) == KS(enc, iv, c.min + (CHUNK + k));
        assert d.min + k == c.min + (CHUNK + k);
      } else {
        SameBytes(c, d, k);
        assert At(c, k) == KS(enc, iv, c.min + k);
      }
    }
  }

  lemma SameBytes(c: Cache, d: Cache, k: nat)
    requires Shaped(c) && d.size == c.size && d.buf == c.buf && d.start == c.start
    ensures At(d, k) == At(c, k)
  {
  }

  lemma SlidAt(c: Cache, k: nat)
    requires Shaped(c) && !Behind(c) && c.populated == c.size
    ensures At(Prepared(c).(phase := Generating), k) == At(c, CHUNK + k)
  {
    hide Slot;
    SlotSlides(c.size, c.start, k);
    AtLeastOneChunk(c.size);
  }

  lemma ScribbleKeepsInv(enc: Cipher, iv: seq<byte>, c: Cache, i: nat, b: byte)
    requires IsCipher(enc) && Inv(enc, iv, c) && Enabled(c, Scribble(i, b))
    ensures Inv(enc, iv, Next(enc, iv, c, Scribble(i, b)))
  {
    hide KS, Slot;
    ChunkFits(c);
    var d := Next(enc, iv, c, Scribble(i, b));
    forall k | 0 <= k < d.populated ensures At(d, k) == KS(enc, iv, d.min + k) {
      ChunkIsDisjoint(c, k, i);
      assert At(c, k) == KS(enc, iv, c.min + k);
    }
  }

  lemma FinishKeepsInv(enc: Cipher, iv: seq<byte>, c: Cache)
    requires IsCipher(enc) && Inv(enc, iv, c) && c.phase.Generating?
    ensures Inv(enc, iv, Next(enc, iv, c, Finish))
  {
    hide KS, At, Slice;
    ChunkFits(c);
    var d := Next(enc, iv, c, Finish);
    assert Shaped(d) by { SumOfMultiples(c.populated, CHUNK, CHUNK); }
    forall k | 0 <= k < d.populated ensures At(d, k) == KS(enc, iv, d.min + k) {
      if k < c.populated {
        FinishElsewhere(enc, iv, c, k);
        assert At(c, k) == KS(enc, iv, c.min + k);
      } else {
        FinishedByte(enc, iv, c, k - c.populated);
        assert c.min + c.populated + (k - c.populated) == c.min + k;
      }
    }
  }

  lemma FinishedByte(enc: Cipher, iv: seq<byte>, c: Cache, i: nat)
    requires IsCipher(enc) && Shaped(c) && c.phase.Generating? && i < CHUNK
    ensures At(Next(enc, iv, c, Finish), c.populated + i) == KS(enc, iv, c.min + c.populated + i)
  {
    hide KS, Slot;
    ChunkFits(c);
    ChunkIndex(c, i);
  }

  lemma FinishElsewhere(enc: Cipher, iv: seq<byte>, c: Cache, k: nat)
    requires IsCipher(enc) && Shaped(c) && c.phase.Generating? && k < c.populated
    ensures At(Next(enc, iv, c, Finish), k) == At(c, k)
  {
    hide KS, Slice, Slot;
    ChunkFits(c);
    var x := Slot(c.size, c.start, k);
    if ChunkOffset(c) <= x < ChunkOffset(c) + CHUNK {
      ChunkIsDisjoint(c, k, x - ChunkOffset(c));
    }
  }

  /** The cache after any interleaving of readers with the producer; impossible steps are skipped. */
  ghost function Run(enc: Cipher, iv: seq<byte>, c: Cache, steps: seq<Step>): Cache
    requires IsCipher(enc) && Inv(enc, iv, c)
    ensures Inv(enc, iv, Run(enc, iv, c, steps))
    ensures Run(enc, iv, c, steps).size == c.size
    decreases |steps|
  {
    if steps == [] then c
    else
      var d, step := Run(enc, iv, c, steps[..|steps| - 1]), steps[|steps| - 1];
      if Enabled(d, step) then
        StepKeepsInv(enc, iv, d, step);
        Next(enc, iv, d, step)
      else d
  }

  lemma StepKeepsInv(enc: Cipher, iv: seq<byte>, c: Cache, step: Step)
    requires IsCipher(enc) && Inv(enc, iv, c) && Enabled(c, step)
    ensures Inv(enc, iv, Next(enc, iv, c, step)) && Next(enc, iv, c, step).size == c.size
  {
    hide KS, Slice;
    match step
    case Read(pos, n) =>
      var d := Next(enc, iv, c, step);
      forall k | 0 <= k < d.populated ensures At(d, k) == KS(enc, iv, d.min + k) {
        assert At(c, k) == KS(enc, iv, c.min + k);
      }
    case Wake => WakeKeepsInv(enc, iv, c);
    case Scribble(i, b) => ScribbleKeepsInv(enc, iv, c, i, b);
    case Finish => FinishKeepsInv(enc, iv, c);
    case Fail =>
      var d := Next(enc, iv, c, step);
      forall k | 0 <= k < d.populated ensures At(d, k) == KS(enc, iv, d.min + k) {
        assert At(c, k) == KS(enc, iv, c.min + k);
      }
  }

  /** The test for a request that must be generated directly (line 298); its end has to lie strictly inside. */
  predicate Misses(c: Cache, pos: nat, n: nat) {
    pos < c.min || pos + n >= c.min + c.populated
  }

  /** What the reader copies out of the buffer: one piece, or two when the request wraps around. */
  function Copied(c: Cache, pos: nat, n: nat): (s: seq<byte>)
    requires Shaped(c) && !Misses(c, pos, n)
    ensures |s| == n
  {
    Pieces(c.buf, Slot(c.size, c.start, pos - c.min), n)
  }

  function Pieces(buf: seq<byte>, offset: nat, n: nat): (s: seq<byte>)
    requires offset < |buf| && n <= |buf|
    ensures |s| == n
  {
    if offset + n > |buf| then buf[offset..] + buf[..offset + n - |buf|] else buf[offset..offset + n]
  }

  lemma CopiedByte(c: Cache, pos: nat, n: nat, i: nat)
    requires Shaped(c) && !Misses(c, pos, n) && i < n
    ensures Copied(c, pos, n)[i] == At(c, pos - c.min + i)
  {
    hide Slot;
    SlotWraps(c.size, c.start, pos - c.min, i);
  }

  /**
   In every state of every interleaving, also while the producer is generating, a request
   served from the buffer returns exactly the bytes that direct generation would.
   */
  lemma CacheAgrees(enc: Cipher, iv: seq<byte>, size: nat, buf: seq<byte>, steps: seq<Step>, pos: nat, n: nat)
    requires IsCipher(enc) && size > 0 && size % CHUNK == 0 && |buf| == size && size + CHUNK <= U64
    ensures var c := Run(enc, iv, Init(size, buf), steps);
            Shaped(c) && (!Misses(c, pos, n) ==> Copied(c, pos, n) == Slice(enc, iv, pos, n))
  {
    var c := Run(enc, iv, Init(size, buf), steps);
    if !Misses(c, pos, n) {
      CopiedIsSlice(enc, iv, c, pos, n);
    }
  }

  lemma CopiedIsSlice(enc: Cipher, iv: seq<byte>, c: Cache, pos: nat, n: nat)
    requires IsCipher(enc) && Inv(enc, iv, c) && !Misses(c, pos, n)
    ensures Copied(c, pos, n) == Slice(enc, iv, pos, n)
  {
    hide KS, Copied, At, Slot;
    var copied, slice := Copied(c, pos, n), Slice(enc, iv, pos, n);
    forall i | 0 <= i < n ensures copied[i] == slice[i] {
      CopiedByte(c, pos, n, i);
      assert At(c, pos - c.min + i) == KS(enc, iv, c.min + (pos - c.min + i));
      assert c.min + (pos - c.min + i) == pos + i;
    }
  }
}
