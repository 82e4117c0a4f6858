# The streaming core of Chiaki, in Dafny

CloudPad-Switch bundles the Chiaki streaming library. This project models the protocol code
in `lib/src` and proves what it keeps over all runs. One file stands for one component:

| file | component |
|---|---|
| `SeqNum.dfy` | serial number arithmetic for 16 and 32 bits |
| `ReorderQueue.dfy`, `ReorderRuns.dfy` | the ring buffer that puts data packets in order |
| `SendBuffer.dfy` | the retransmit buffer, compacted in place |
| `Channel.dfy`, `Delivery.dfy` | the reliable data channel: both endpoints, and the two of them over a network |
| `KeyPos.dfy` | handing out key-stream positions, and rebuilding them from 32 bits |
| `KeyStream.dfy`, `KeyCache.dfy`, `GKCrypt.dfy` | the key stream, its circular cache, and the crypt object with its producer thread |
| `Gmac.dfy` | the remembered GMAC key |
| `Fec.dfy`, `FrameProcessor.dfy`, `FrameRuns.dfy` | erasure coding and frame assembly |
| `Audio.dfy`, `AudioParts.dfy`, `AudioSendings.dfy` | audio generations, runs of packets cut into them, and what becomes of the units of several sendings |
| `Video.dfy`, `VideoRuns.dfy` | frame order and reference frames, and what whole streams come to |
| `BitReader.dfy`, `Rbsp.dfy`, `Bitstream.dfy`, `SliceCode.dfy` | the bit reader, reading and patching H.265 slice headers, and the headers as an encoder writes them |
| `RecvPool.dfy` | the receive pool and the packet-process queue |
| `Base64.dfy` | the Base64 encoder and decoder |
| `Common.dfy` | small datatypes and arithmetic |

Objects with fields and buffers are classes with fields and arrays; each of their methods is
proved to compute a function of the old state, and the laws of those functions are lemmas.
Where two threads or two endpoints meet, a step of the model is what one of them does while it
holds a mutex, and the lemmas speak of every interleaving; a send, which takes its number,
transmits and stores under different locks, is three steps.

A failing C assertion is modelled as an abort, as in a build with assertions. AES, SHA-256,
AES-GCM and the erasure code are function parameters; that any k of k + m words of an erasure
code recover the others is a law required of the parameters, for the k, m and word size at
hand. Clocks, sockets and what the application's callbacks answer are parameters as well.

What the proofs found in the code, with the lemma or method that says so:

- The sum of 16-bit sequence numbers is not truncated (`lib/src/reorderqueue.c:38`, because of
  integer promotion), so a 16-bit queue aborts when its window reaches the end of the number
  space (`ReorderRuns.PushAcrossTheWrap`); and a queue of either width aborts on a number
  exactly half the space away from an empty window (`ReorderRuns.PushHalfFromEmpty`).
  `ReorderQueue.AssertionFails` is the exact condition, and `ReorderQueue.Queue.Push` and
  `AssertionFailsUnwrapped` prove it.
- A queue of one slot loses the element in it when a number exactly half the space ahead
  arrives (`ReorderRuns.PushHalfAhead`), and conserves payloads otherwise
  (`ReorderRuns.ConservedUnlessOverwritten`).
- A continuation message without content stops a data channel for good, because the receiver
  ignores payloads shorter than nine bytes without taking their number
  (`Delivery.ShortMessageBlocks`); so does a message that the socket refuses, because its
  number is consumed (`Delivery.RefusedSendBlocks`), and any message that is lost and not
  stored, or lost and given up on: `Delivery.PassableIffAlive` is the exact condition.
- `chiaki_takion_crypt_advance_key_pos` adds the remainder of the size to the size
  (`lib/src/takion.c:672`), which is rounding up to a block only for multiples of eight
  (`KeyPosSpec.AdvanceInBlocksIff`). Intervals stay disjoint all the same
  (`KeyPosSpec.NoKeyStreamReuse`).
- The counter is a 128-bit sum only while the first byte of the IV plus the offset is below
  2^64 (`lib/src/gkcrypt.c:171`, `KeyStream.CounterExact`), which every real position satisfies.
- With a key buffer of one chunk the window can start after the last request
  (`KeyCacheProgress.OneChunkOvertakes`); with two or more it cannot
  (`KeyCacheProgress.WindowStaysBehindReaders`).
- The frame processor never sets its `flushed` flag after a flush (`lib/src/frameprocessor.c:336`).
  A second flush of the same frame gives other bytes (`FrameProcessor.FlushTwice`) unless
  compaction has left the payloads alone (`FrameMemory.SecondFlushIff`), and after a recovery it
  fails an assertion (`FrameMemory.SecondFlushAborts`). `FrameRuns.SecondFlush` says which, for
  every frame of a sending.
- A video packet exactly 2^15 frames away from the current one is neither old nor new and is
  put into the current frame (`VideoSpec.UnitsBelong`, and `VideoSpec.HalfAwayJoins` for an input).
- The number of lost frames that a frame missed by FEC adds is short by 65536 if the 16-bit
  index has wrapped since the last frame (`lib/src/videoreceiver.c:220`), and right exactly
  otherwise (`VideoRuns.LostOnMiss`).
- The audio reassembler numbers frames from the packet that started their generation
  (`lib/src/pscloud_audio_reassembler.c:76`), so a frame has its own packet's number exactly if
  counting that back by its unit gives the starter's number (`AudioParts.RightNumberIff`): with
  sendings numbered apart, exactly if unit 0 of the same sending started the generation
  (`AudioSendings.RightNumberOfSendings`, and `WrongNumber` and `UnitZeroLate` for inputs).
- A packet other than unit 0 does not start a generation while one with the same totals is in
  progress, in time and not full (`AudioParts.StartsIff`). So a sending whose unit 0 is lost or
  late can fall into the generation of the one before, and then k of its units need not recover
  it (`AudioSendings.UnitZeroLost`). Exactly when that happens says `AudioSendings.EachOfOneIff`;
  of a generation with units of one sending only, any k recover it
  (`AudioSendings.SendingHandedOn`).
- A sending whose unit 0 arrives, but not as the first of its units, is torn into several
  generations (`AudioSendings.OwnGenerationIff` and `TogetherOfDistinct`, and
  `AudioSendings.UnitZeroLate` for an input).

One comment disagrees with the code: `lib/src/takion.c:43` calls the reorder queue 128 entries
long; with the exponent 8 it has 256, and the model follows the code.

## Model

| member | source | states |
|---|---|---|
| SeqNum.Compare | lib/include/chiaki/seqnum.h:21-37 | serial less-than and greater-than on wire numbers are the order of the unwrapped numbers whenever these are at most half the space apart; exactly half apart neither holds |
| SeqNum.UnwrapRecovers | lib/include/chiaki/seqnum.h:17-40 | every number within half the space of a base is recovered from its wire number |
| ReorderQueue.Queue.constructor | lib/src/reorderqueue.c:17-47 | an empty window at the start number, for 16 or 32 bits, either strategy and any size of up to a quarter of the number space |
| ReorderQueue.Queue.Push | lib/src/reorderqueue.c:64-128 | the ring behaves like a push on the unwrapped window: which number arrives, is a duplicate, is too old, evicts or is refused; it aborts exactly when AssertionFails holds, and then changes nothing; and it writes over what waits exactly when Overwrites holds |
| ReorderQueue.AssertionFailsUnwrapped | lib/src/reorderqueue.c:83 | when the assertion fails, in unwrapped numbers: exactly half the space from an empty window, or with 16 bits at a window edge that reaches the end of the number space |
| ReorderQueue.Queue.Pull | lib/src/reorderqueue.c:130-147 | a pull succeeds exactly if the lowest number is there, and returns its payload and its wire number |
| ReorderQueue.Queue.Fini | lib/src/reorderqueue.c:49-62 | every payload still waiting goes to the drop callback once, in order, under its own number |
| ReorderQueue.SlotsDistinct | lib/src/reorderqueue.c:13-15 | numbers inside a window share no ring slot, so a stale slot is never seen |
| ReorderSpec.PushWaiting | lib/src/reorderqueue.c:69-113 | as a map from numbers to payloads: a push not too far ahead stores its payload exactly if the number lies within the capacity from the window's begin and is not waiting yet; the map gains that and nothing else, and otherwise stays and the pushed payload alone is dropped |
| ReorderSpec.PushFarAhead | lib/src/reorderqueue.c:93-127 | with the BEGIN strategy a number too far ahead is always stored; exactly the waiting numbers a whole capacity or more behind it are dropped for it, in increasing order, and a window emptied by that begins with it |
| ReorderSpec.PullWaiting | lib/src/reorderqueue.c:130-147 | a pull is possible exactly if the lowest number of the window waits, and removes that number alone |
| ReorderSpec.OccupiedExactly | lib/src/reorderqueue.c:49-62 | the list of what waits has exactly the waiting numbers with their payloads, in increasing order |
| ReorderRuns.Conservation | lib/src/reorderqueue.c:64-147 | after every run with either strategy the multiset of pushed payloads is that of those waiting, pulled and dropped together: each is in exactly one place |
| ReorderRuns.PulledConsecutively | lib/src/reorderqueue.c:89-91 | with the END strategy the pulled numbers are consecutive from the start number |
| ReorderRuns.PulledInOrder | lib/src/reorderqueue.c:93-108 | with either strategy the pulled numbers strictly increase |
| ReorderRuns.PushAcrossTheWrap | lib/src/reorderqueue.c:38 | a concrete run: pushing the numbers before and after the end of the space aborts with 16 bits, whose sum is not truncated, and not with 32 |
| ReorderRuns.PushHalfFromEmpty | lib/src/reorderqueue.c:83 | a concrete run: the number half the space from the start of an empty queue aborts in either width |
| ReorderRuns.ConservedUnlessOverwritten | lib/src/reorderqueue.c:83-128 | what is pushed stays accounted for if and only if it is not pushed half the number space ahead of the one element in a queue of one slot |
| ReorderRuns.PushHalfAhead | lib/src/reorderqueue.c:88-124 | a concrete run with one slot: the first element is neither waiting nor dropped nor pulled after the second, in either width and strategy |
| SendBuffer.Buffer.Push | lib/src/takionsendbuffer.c:95-138 | overflow exactly if full, invalid exactly for a number already there, otherwise the packet is appended with zero tries; numbers stay distinct and within capacity |
| SendBuffer.Buffer.Ack | lib/src/takionsendbuffer.c:140-200 | the single-pass gap closing leaves exactly the packets not covered by the acknowledgement, in order, and reports exactly the removed numbers, in order, within the array |
| SendBuffer.Buffer.CloseGap | lib/src/takionsendbuffer.c:173-180 | one block move: it puts the kept run behind the kept prefix and overwrites nothing still to be read |
| SendSpec.KeptExactly | lib/src/takionsendbuffer.c:150-182 | a packet is kept if and only if it was there and is not serially less than or equal to the acknowledged number |
| SendSpec.RemovedExactly | lib/src/takionsendbuffer.c:150-182 | a number is reported if and only if a packet with it was there and is covered |
| SendSpec.KeptAndRemoved | lib/src/takionsendbuffer.c:150-182 | every packet is either kept or reported |
| SendSpec.KeptDistinct | lib/src/takionsendbuffer.c:108-116 | numbers that were pairwise distinct stay so |
| SendBuffer.Buffer.Resend | lib/src/takionsendbuffer.c:250-280 | a pass ends, keeps every count at most 25, gives up only at the limit and removes only what a packet given up on covers; what goes out are payloads of packets that were there and due, and every packet left is one that was there, at most with its new time and count; if none is given up on, exactly the packets that are due go out, in order |
| SendBuffer.ResentMeans | lib/src/takionsendbuffer.c:257-277 | with a clock that does not run backwards a packet is sent again, counted and timed as sent, exactly if more than 200 ms have passed; its number and payload stay |
| ChannelSpec.SeqNumRoundTrip | lib/src/takion.c:841-845 | the number written in front of a message is the one read from it |
| ChannelSpec.PayloadBytes | lib/src/takion.c:841-845 | byte by byte: four of the number and two of the channel, high byte first, two zeros, the type only in ordinary messages, then the content |
| ChannelSpec.SeqNumBytes | lib/src/takion.c:1791 | the number read is that of the first four bytes, high byte first |
| ChannelSpec.TypedArrives | lib/src/takion.c:1721-1760 | behind any eight bytes, a ninth of 0, 7, 9 or 11 is the type of the event and what follows its content; any other is the beginning of the content in ping mode, and without it nothing is raised |
| ChannelSpec.OrdinaryArrives | lib/src/takion.c:1716-1760 | an ordinary message raises an event with exactly its content |
| ChannelSpec.ContinuationArrives | lib/src/takion.c:868-919 | a continuation's content arrives if and only if the receiver is in ping mode, the content is not empty and does not begin with a known data type |
| ChannelSpec.AckRoundTrip | lib/src/takion.c:1801-1818 | the acknowledgement that is sent is accepted, with the number it was sent for |
| ChannelSpec.AckBytes | lib/src/takion.c:937-941 | byte by byte: the number, high byte first, the window 0x400000, and two zero counts |
| ChannelSpec.FlushPulls | lib/src/takion.c:1704-1768 | flushing pulls a run without gaps, until nothing more can be pulled |
| Channel.Receiver.FlushDataQueue | lib/src/takion.c:1704-1768 | pulls all that is available, raises its events in order and sends one acknowledgement for the last number, or none |
| Channel.Receiver.HandleData | lib/src/takion.c:1770-1799 | a payload shorter than its header changes nothing; any other is pushed under its number and flushed; the assertion's exact condition is passed on |
| Channel.Sender.TakeNumber | lib/src/takion.c:835-839 | the section under the number's lock: the number is the counter's, which goes up by one and wraps |
| Channel.Sender.Store | lib/src/takion.c:860 | the section under the buffer's lock: the packet is kept if there is room and its number is not there |
| Channel.Sender.Send | lib/src/takion.c:815-866 | numbers are taken in sequence and wrap, also when the socket refuses; a payload that was sent is stored under its own number if there is room |
| Channel.Sender.HandleDataAck | lib/src/takion.c:1801-1839 | a well-formed acknowledgement removes what it covers and raises one event per removed number; anything else changes nothing |
| Delivery.Invariant | lib/src/takion.c:815-866 | the invariant of every interleaving of taking numbers, transmitting, storing, resending, giving up, losing, duplicating and reordering, with fewer than 2^31 messages: everything in flight, buffered or queued carries some message under its own number |
| Delivery.DeliversPrefix | lib/src/takion.c:1704-1799 | end to end: the receiver never aborts, and its events are exactly those of a prefix of the messages sent, in order and each once, across the wrap of 32 bits |
| Delivery.DeliversContents | lib/src/takion.c:1704-1799 | for ordinary messages the delivered contents are a prefix of the sent ones |
| Delivery.AcksAreHonest | lib/src/takion.c:1766-1767 | every acknowledgement in flight names a message already delivered |
| Delivery.ConfirmedIsDelivered | lib/src/takion.c:1828-1838 | what an acknowledgement removes from the retransmit buffer has been delivered |
| Delivery.NextArrives | lib/src/takion.c:1797-1798 | whenever the next message arrives the receiver gets past it, unless its payload is shorter than a full header |
| Delivery.AnyOrderPasses | lib/src/takion.c:1704-1799 | whatever else happens and in whatever order they come, once the payload of each of the next n messages has arrived, with full headers and n at most 256, the receiver is past all of them |
| Delivery.ReceiveHas | lib/src/takion.c:1770-1799 | an arriving payload with a full header loses no message the receiver has, pulled or waiting, and adds its own exactly if that is less than 256 ahead of what was pulled |
| Delivery.PulledIsAcknowledged | lib/src/takion.c:1766-1767 | whenever the receiver gets further, an acknowledgement of the last message it has pulled is in flight |
| Delivery.AckClears | lib/src/takion.c:1828-1838 | the acknowledgement of a message removes from the retransmit buffer exactly the messages up to that one, and confirms them |
| Delivery.StuckForever | lib/src/takion.c:815-866 | once the next message's payload is neither in flight nor buffered nor on its way through a send, or is too short, no continuation gets past it |
| Delivery.PassableIffAlive | lib/src/takion.c:815-866 | and otherwise some continuation does, if need be by giving up on another packet of a full buffer: the exact condition under which the receiver can still get past the next message |
| Delivery.RefusedSendBlocks | lib/src/takion.c:852-858 | when the socket refuses a message that follows everything delivered, its number is consumed and nothing sent afterwards is ever delivered |
| Delivery.ShortMessageBlocks | lib/src/takion.c:1775-1779 | a continuation without content is never passed, and so stops the channel |
| KeyPosSpec.RebuildExact | lib/src/gkcrypt.c:556-568 | a 64-bit position is rebuilt from its low 32 bits if and only if it is Recoverable from the last committed one: less than 2^31 away, and three named cases besides |
| KeyPosSpec.CommittedIsTrue | lib/src/gkcrypt.c:556-573 | over a run of packets each recoverable from the authentic one before, the committed position is the true one of the last authentic packet |
| KeyPosSpec.RunUnderstands | lib/src/gkcrypt.c:556-573 | in such a run any packet is understood if and only if it is recoverable from the last authentic position |
| KeyPos.KeyState.RequestPos | lib/src/gkcrypt.c:556-568 | the method computes the rebuilt position and remembers it only when told to commit |
| KeyPos.KeyState.Commit | lib/src/gkcrypt.c:570-573 | the position given is the one remembered |
| KeyPosSpec.AdvanceInBlocksIff | lib/src/takion.c:672 | an advance is a whole number of blocks, and what rounding up gives, if and only if the size is a whole number of half blocks |
| KeyPosSpec.NoKeyStreamReuse | lib/src/takion.c:981-1022 | over any run of sends the key-stream intervals that encrypt packets are pairwise disjoint |
| KeyPosSpec.EncryptsBehindPosition | lib/src/takion.c:989-997 | a packet is encrypted with the key stream from 16 bytes behind the position it is sent with, and the counter moves past the end of that |
| KeyPos.LocalCrypt.AdvanceKeyPos | lib/src/takion.c:670-694 | the position handed out is the old one; the next is further by the size and its remainder modulo a block, and an advance past the end of the range is refused and changes nothing |
| KeyPos.LocalCrypt.SendFeedback | lib/src/takion.c:981-1000 | a feedback packet is encrypted one block behind the position it took, inside the interval it advanced over |
| KeyStream.CounterAdd | lib/src/gkcrypt.c:166-179 | the carry loop is little-endian addition modulo 2^128 of the value, less 2^64 exactly if the first 64-bit sum wraps |
| KeyStream.CounterExact | lib/src/gkcrypt.c:166-179 | the counter is the true 128-bit sum if and only if the first byte plus the value is below 2^64 |
| KeyStreamSpec.CounterLowFirst | lib/src/gkcrypt.c:166-179 | counter 0 is the IV, and a sum that does not fit into the first byte is carried into the second |
| KeyStream.GenKeyStream | lib/src/gkcrypt.c:217-279 | the buffer holds the key stream from the position on, block by block enc(iv + position/16 + j), and nothing else changes |
| KeyStreamSpec.SliceIsBlocks | lib/src/gkcrypt.c:250-253 | a block-aligned slice of the key stream is the sequence of its encrypted counters |
| KeyStreamSpec.SliceOfBlock | lib/src/gkcrypt.c:250-253 | the sixteen bytes at position 16 j are the encryption of the counter plus j |
| KeyStreamSpec.DecryptTwice | lib/src/gkcrypt.c:336-356 | decrypting what was encrypted at the same position is the identity |
| Bytes.XorByteDiffers | lib/src/utils.h:101-110 | a bit of the xor of two bytes is set if and only if the bytes differ there |
| KeyStreamSpec.DecryptedBits | lib/src/gkcrypt.c:336-356 | every bit of a decrypted text is the text's, flipped if and only if the key stream's bit at its position is set |
| KeyStreamSpec.DecryptedZeros | lib/src/gkcrypt.c:336-356 | zeros decrypt to the key stream of their positions |
| KeyStreamSpec.DecryptInPieces | lib/src/gkcrypt.c:336-356 | decrypting consecutive pieces is decrypting the whole, whatever their alignment |
| KeyCacheSpec.ChunkIsDisjoint | lib/src/gkcrypt.c:474-482 | the chunk being written shares no byte with anything a reader can be given |
| KeyCacheSpec.StepKeepsInv | lib/src/gkcrypt.c:286-549 | every step of readers and producer, also arbitrary writes into the chunk in the making, keeps every populated byte equal to the key stream's byte of its position |
| KeyCacheSpec.CopiedIsSlice | lib/src/gkcrypt.c:313-327 | the one or two copies out of the circular buffer are the slice of the key stream that was asked for |
| KeyCacheSpec.CacheAgrees | lib/src/gkcrypt.c:286-334 | in every state of every interleaving, a request served from the cache returns the same bytes as direct generation |
| KeyCacheProgress.RoundProgress | lib/src/gkcrypt.c:511-545 | a round of the producer ends being behind for good; after that the reader's lead shrinks, or the buffer fills at an unchanged lead |
| KeyCacheProgress.Settled | lib/src/gkcrypt.c:459-549 | without new requests the producer comes to rest: the buffer is full and the last request lies in its first half |
| KeyCacheProgress.SkipsOnce | lib/src/gkcrypt.c:522-532 | on the way it skips ahead exactly once if it starts behind, and otherwise never |
| KeyCacheProgress.WindowStaysBehindReaders | lib/src/gkcrypt.c:522-539 | with at least two chunks the window never starts after the last request, in any interleaving |
| KeyCacheProgress.OneChunkOvertakes | lib/src/gkcrypt.c:533-539 | with a single chunk it can: a concrete run |
| GKCrypt.Crypt.GetKeyStream | lib/src/gkcrypt.c:286-334 | an aligned request yields the key stream of its positions from the cache or directly; the producer is signalled exactly when it should generate |
| GKCrypt.Crypt.WakeUp | lib/src/gkcrypt.c:522-539 | what the producer does before it drops the mutex |
| GKCrypt.Crypt.GenerateNextChunk | lib/src/gkcrypt.c:474-493 | the chunk is generated in place and then counted |
| GKCrypt.Crypt.Decrypt | lib/src/gkcrypt.c:336-356 | any position and size: the text xored with the key stream of its positions, through whole blocks and skipped padding |
| GKCrypt.ProduceUntilSettled | lib/src/gkcrypt.c:503-545 | the producer's loop ends, in the state Settled describes |
| Gmac.Keys.Gmac | lib/src/gkcrypt.c:358-385 | the tag is a function of position and message alone, whatever was asked for before, forward or backward; the remembered key only moves forward |
| Gmac.Keys.SelectKey | lib/src/gkcrypt.c:363-375 | the selected key is the one of the index, remembered, derived or temporary |
| Gmac.Keys.GenNewGmacKey | lib/src/gkcrypt.c:202-207 | the remembered key and its index change together |
| GmacSpec.SameKeyIndex | lib/src/gkcrypt.c:365 | two positions share a key if and only if no multiple of 45000 lies between them, a multiple itself belonging to the lower index |
| GmacSpec.KeyBits | lib/src/gkcrypt.c:181-207 | a key has the bits in which the halves of a digest differ: of the key and the IV for index 0, and of the base key and the counter 44910 times the index further on for all others |
| GmacSpec.OffsetsFit | lib/src/gkcrypt.c:361-365 | for 64-bit positions neither the offset product nor the counter addition wraps |
| Fec.DecodeCells | lib/src/fec.c:17-75 | the decoder's words are the first bytes of every cell, and its result replaces them in place; failure leaves the buffer as it was |
| FrameProcessor.Processor.AllocFrame | lib/src/frameprocessor.c:67-162 | which error for which packet, and otherwise an empty frame with the sizes the packet implies, whatever was in the buffers |
| FrameRuns.SizeOfFirst | lib/src/frameprocessor.c:95-104 | from a packet that is not refused, the size of all units is that of its data, and for a source packet of video more by its first byte times 256 plus its second |
| FrameRuns.StartsIff | lib/src/frameprocessor.c:75-162 | exactly which first packets are not refused: no more FEC units than units, two bytes in a source packet of video, a size, and at most 512 slots whose cells, of whole 16 bytes, fit into 2^64 bytes together |
| FrameProcessor.Processor.PutUnit | lib/src/frameprocessor.c:164-247 | a unit is taken if and only if its index and size fit and its slot is empty; otherwise nothing changes; slot, bytes and counters are those of PutInto, also after a flush, and those of the frame before one |
| FrameMemory.PutIsPut | lib/src/frameprocessor.c:164-247 | as long as a frame has not been flushed, putting a unit into the memory is putting it into the frame |
| FrameProcessor.Processor.CollectErasures | lib/src/frameprocessor.c:263-285 | the list holds exactly the missing indices in order, or the assertion after it fails, which it does exactly if the counters do not count the filled slots |
| FrameProcessor.Processor.AttemptFec | lib/src/frameprocessor.c:256-334 | decoding, and sizes restored from the headers of the source units; a nonsensical header leaves a slot as it was; failure leaves the memory as it was |
| FrameProcessor.Processor.Compact | lib/src/frameprocessor.c:355-374 | the overlapping moves produce the concatenated payloads, as the cells had them before any move, and leave the rest of the buffer as it was |
| FrameProcessor.Processor.MovePart | lib/src/frameprocessor.c:370-373 | one overlapping move writes the payload as it was over the bytes at its destination, and nothing else |
| FrameProcessor.Processor.Flush | lib/src/frameprocessor.c:336-381 | the result, the flushed bytes at the beginning of the buffer and the memory behind, for the first flush of a frame and for every later one; the assertion fails exactly when Aborts says so, never in the first |
| FrameMemory.FlushIsFlush | lib/src/frameprocessor.c:336-381 | the first flush gives the frame's result and the payloads of its final units |
| FrameMemory.SecondFlushIff | lib/src/frameprocessor.c:338-374 | when no flush recovers anything, the second has the result of the first, and its bytes if and only if compaction has not changed a payload byte |
| FrameMemory.TooFewUnrecovered | lib/src/frameprocessor.c:346-353 | with fewer than k units no flush recovers anything |
| FrameMemory.SecondFlushAborts | lib/src/frameprocessor.c:263-285 | a second flush after units were recovered fails the assertion if and only if some missing source unit came out with a sensible header |
| FrameProcessor.FlushTwice | lib/src/frameprocessor.c:336-381 | a concrete frame: its unit gives 7, 8, 9 in the first flush and 9, 8, 9 in the second |
| FrameProcessor.Processor.FlushPossible | lib/include/chiaki/frameprocessor.h:67-71 | possible if and only if as many units are there as there are source units |
| FrameRuns.SameLayout | lib/src/frameprocessor.c:75-133 | whichever packet of a frame comes first, source or FEC, the frame is refused for want of slots or memory, or its layout is the same |
| FrameRuns.ReceivedIsArrived | lib/src/frameprocessor.c:164-247 | after packets in any order, repeated or not, the slots hold exactly the units that arrived, and as many as there are distinct indices |
| FrameRuns.AnyEnoughUnitsFlush | lib/src/frameprocessor.c:164-381 | any k of the units of a frame that is not refused, in any order and whichever first, flush to the concatenation of the k source payloads |
| FrameRuns.ContentsFlush | lib/src/frameprocessor.c:164-381 | end to end: contents behind headers of two bytes that say, high byte first, how much they fall short of the common size, with their code: any k units in any order flush to the contents, joined |
| FrameRuns.TooFewUnits | lib/src/frameprocessor.c:336-381 | with fewer than k units nothing is recovered and the bytes are those of the source units that arrived |
| FrameRuns.SecondFlush | lib/src/frameprocessor.c:336-381 | flushing the frame of a sending a second time fails the assertion after a recovery; otherwise the result is the same, and the bytes are if and only if compaction has not changed a payload byte |
| BitReader.Vlc.constructor | lib/src/vl_rbsp.h:115-130 | the reader stands at the first bit, with at least 32 valid bits or the whole input |
| BitReader.Vlc.AlignDataPtr | lib/src/vl_rbsp.h:63-72 | byte reads up to a dword boundary do not move the position |
| BitReader.Vlc.FillBits | lib/src/vl_rbsp.h:77-110 | dword or byte refills do not move the position; afterwards 32 bits are valid or the input is used up |
| BitReader.Vlc.GetUimsbf | lib/src/vl_rbsp.h:177-188 | the number written by the next bits of the input, if they are valid |
| BitReader.Vlc.EatBits | lib/src/vl_rbsp.h:165-172 | the position moves by the number of bits, exactly if the assertion holds |
| BitReader.OrAppends | lib/src/vl_rbsp.h:84-108 | or-ing a shifted value into the register appends it to the valid bits |
| BitSpec.UeInvertsCode | lib/src/vl_rbsp.h:390-399 | reading inverts the Exp-Golomb code of section 9.2 of ITU-T H.265, wherever it stands, up to 30 leading zeros |
| BitSpec.ZerosOf | lib/src/vl_rbsp.h:390-399 | every number has such a code, with one number of leading zeros |
| BitSpec.HighBitFirst | lib/src/vl_rbsp.h:77-110 | bit i of the input is bit 7 - i mod 8 of byte i / 8 |
| Rbsp.SkipStartcode | lib/src/bitstream.c:9-24 | it succeeds if and only if one of the first 65 byte offsets holds a start code, and stops behind the first |
| Rbsp.Reader.constructor | lib/src/vl_rbsp.h:303-336 | something special is found exactly if a start code lies ahead or the scan fires; the latter only if a byte of value three is among those loaded |
| Rbsp.Reader.Scan | lib/src/vl_rbsp.h:324-331 | the scan fires exactly if some byte-aligned prefix of the valid bits ends in a three, and only if a byte of value three is among those loaded |
| Rbsp.Reader.FillBits | lib/src/vl_rbsp.h:341-371 | the position stays, 32 bits are valid or the input is used up, and the bits not yet scanned are scanned exactly if there were fewer than 32 and 24 are left |
| Rbsp.Reader.U | lib/src/vl_rbsp.h:376-385 | while nothing special is found, the next bits of the input as a number, or nothing if they are not there |
| Rbsp.Reader.Ue | lib/src/vl_rbsp.h:390-399 | while nothing special is found, the Exp-Golomb code that stands at the position, or nothing if it is cut off or too long |
| Bitstream.SliceH265 | lib/src/bitstream.c:227-300 | the slice type and reference frame that the bits of the input describe, unless something special is found, which needs a later start code or a byte of value three among those that reading the header loads |
| SliceSpec.ParsedMeans | lib/src/bitstream.c:227-300 | of every header that can be read: a P slice if and only if the type code is 1 and an I slice if and only if it is 2; for trailing pictures the reference is 255 if and only if no listed flag is set, and r if and only if flag r is set and none before it |
| SliceCode.ParseWritten | lib/src/bitstream.c:227-300 | parsing what an encoder writes by section 7.3.6.1 of ITU-T H.265: start code, NAL header, picture parameter set, address, type, picture order count and list give the type by its code and the first picture used, 255 if there is none or no list; only a list of more than 16 is refused |
| SliceCode.NearestMeans | lib/src/bitstream.c:283-292 | what the encoder's side calls the first picture used: it is used and none before it is, and it is 255 if and only if none is used |
| Bitstream.SetReferenceFrameH265 | lib/src/bitstream.c:302-370 | the bits are left as the specification of the patch says, and the result says whether the picture was in the list, under the same condition on what reading up to the flag loads |
| Bitstream.PatchFlag | lib/src/bitstream.c:350-362 | rewriting the eight bytes before the data pointer changes exactly the next unread bit |
| Bitstream.PatchThenSlice | lib/src/bitstream.c:227-370 | on the bytes in place: after a successful patch for r, parsing them again reports a P slice with reference frame r |
| SliceSpec.PatchIsSeen | lib/src/bitstream.c:302-370 | after a successful patch for r the parser reports a P slice with reference frame r |
| SliceCode.PatchWritten | lib/src/bitstream.c:302-370 | patching a P slice that an encoder wrote gives, bit for bit, what it would have written had the slice used picture r and none before it, and succeeds if and only if the list has that picture |
| SliceCode.RepointMeans | lib/src/bitstream.c:347-366 | of the pictures up to r only the flags change, cleared before r and set for r; the ones behind are as they were |
| SliceSpec.ListIsFarIn | lib/src/bitstream.c:302-357 | a list that is not empty begins so far in that the eight bytes before the data pointer exist |
| SliceSpec.PatchTouchesOnlyFlags | lib/src/bitstream.c:347-366 | the patch succeeds if and only if r is in the list, and changes only the flags of the pictures up to r: cleared, and set for r |
| SliceSpec.UeSame | lib/src/vl_rbsp.h:390-399 | a code depends only on the bits it is read from, so patched flags do not disturb it |
| Audio.Reassembler.PutPacket | lib/src/pscloud_audio_reassembler.c:216-418 | the new state, the frames handed on and the result are those of the specification; a packet that announces too much ends the current generation, fails, and leaves the next one with its numbers set |
| Audio.Reassembler.AllocGeneration | lib/src/pscloud_audio_reassembler.c:40-137 | a generation starts exactly from a packet with source units and data that announces no more than there is room for, with cleared slots and the next number |
| AudioSpec.TooLargeIff | lib/src/pscloud_audio_reassembler.c:85-125 | too much is announced if and only if it is more than 512 units or their cells, of whole 16 bytes, do not fit into 2^64 bytes together |
| Audio.Reassembler.AttemptFec | lib/src/pscloud_audio_reassembler.c:139-214 | recovered source units are marked and in place; the erasure list's length, computed from the counters, is right |
| Audio.Reassembler.StoreUnit | lib/src/pscloud_audio_reassembler.c:342-417 | a unit is stored cut or padded to size, counted where it belongs, and completes a generation at most once |
| AudioRuns.OutputOrdered | lib/src/pscloud_audio_reassembler.c:216-418 | over any run the frames handed on strictly increase in generation and unit, so none comes twice |
| AudioRuns.OutputOfCurrent | lib/src/pscloud_audio_reassembler.c:404-415 | of the generation in progress everything has been handed on if all its source units are there, and otherwise nothing |
| AudioRuns.EndedGeneration | lib/src/pscloud_audio_reassembler.c:278-318 | when a packet ends a generation, what was handed on of it is its fate: all source units if all were there or could be recovered, and otherwise exactly those that were there |
| AudioRuns.LaterGenerations | lib/src/pscloud_audio_reassembler.c:280-322 | nothing is added to an ended generation later |
| AudioParts.RunIsParts | lib/src/pscloud_audio_reassembler.c:216-418 | over every run the packets fall into parts, told apart by the packets alone; the generations are the parts, and the output is the fate of each ended one, in order, and what is out of the one in progress |
| AudioParts.SlotsOfPart | lib/src/pscloud_audio_reassembler.c:342-401 | the slots of a generation hold of each unit the first packet that arrived in its part, cut or filled up to the size of the first packet of all |
| AudioSpec.FittedMeans | lib/src/pscloud_audio_reassembler.c:372-388 | cut or filled up: the bytes that are there as they are, and zeros behind them |
| AudioParts.StartsIff | lib/src/pscloud_audio_reassembler.c:228-327 | over every run, when a packet starts a generation: it can, and is unit 0, or none is in progress, or the one in progress is late, full, too short for the unit, or has other totals; otherwise it goes into its slot of the one in progress, whosever that is, or is dropped because the slot is taken |
| AudioParts.NumberedFromStarter | lib/src/pscloud_audio_reassembler.c:71-77 | over every run, a frame has the number of the packet that started its generation plus its unit, whichever unit that packet was |
| AudioParts.BytesOfPacket | lib/src/pscloud_audio_reassembler.c:372-401 | over every run, a frame whose unit was not recovered has the bytes and the kind of the packet kept in its slot |
| AudioParts.KeptIsHandedOn | lib/src/pscloud_audio_reassembler.c:278-318 | over every run, no source packet kept in a slot is lost: once its generation has ended its unit was handed on, under the starter's number plus its unit, with its own bytes and kind, whatever FEC did |
| AudioParts.FewUnitsAreAll | lib/src/pscloud_audio_reassembler.c:278-318 | and if fewer than k distinct units arrived, every frame of that generation is a kept packet's |
| AudioParts.RightNumberIff | lib/src/pscloud_audio_reassembler.c:71-77 | over every run, a frame has the number of its own packet if and only if that number less the packet's unit is the number of the packet that started the generation |
| AudioSendings.RightNumberOfSendings | lib/src/pscloud_audio_reassembler.c:71-77 | with any number of sendings numbered apart: if and only if unit 0 of the packet's own sending started the generation |
| AudioSendings.WrongNumber | lib/src/pscloud_audio_reassembler.c:247-275 | a concrete run: unit 1 of a sending joins the generation of the one before, which unit 0 has started, and is handed on under the wrong number |
| AudioSendings.UnitZeroLate | lib/src/pscloud_audio_reassembler.c:247-253 | a concrete run: unit 1 before unit 0 comes out alone, under the wrong number, and leaves unit 0 alone in the next generation |
| AudioSendings.UnitZeroLost | lib/src/pscloud_audio_reassembler.c:247-275 | a concrete run: any two of three units suffice and two of a sending arrive, in time and together, but in the generation of the one before, and its unit 0 is never handed on |
| AudioSendings.EachOfOneIff | lib/src/pscloud_audio_reassembler.c:228-327 | over every run of sendings, each generation holds units of one sending only if and only if no packet arrives that starts none and whose slot is free while another sending's generation is in progress |
| AudioSendings.OwnGenerationIff | lib/src/pscloud_audio_reassembler.c:228-327 | over every run, packets that follow each other have a generation to themselves if and only if the first starts one and no later one does |
| AudioSendings.TogetherOfDistinct | lib/src/pscloud_audio_reassembler.c:246-275 | for packets of one sending, in time and none repeated, no later one does exactly if unit 0 comes first or not at all |
| AudioSendings.SendingHandedOn | lib/src/pscloud_audio_reassembler.c:278-415 | over every run of sendings, of an ended generation that holds units of one sending only, any k of them, source or FEC, have given all k source units with the sender's bytes; fewer have given exactly the source units among them |
| Video.VideoReceiver.AddRefFrame | lib/src/videoreceiver.c:10-26 | the array holds the last 16 frames added, the newest first, at its end while there are fewer |
| Video.VideoReceiver.HaveRefFrame | lib/src/videoreceiver.c:28-34 | found if and only if it is one of the last 16 frames added |
| Video.VideoReceiver.CheckReference | lib/src/videoreceiver.c:239-282 | a frame goes on unchanged if its reference is there, patched to the first older one in the list that is, and is dropped if there is none or the patch fails |
| Video.VideoReceiver.FlushFrame | lib/src/videoreceiver.c:192-307 | what each flush result does to the frame counters, the reference list and the frames handed on |
| Video.VideoReceiver.AvPacket | lib/src/videoreceiver.c:83-190 | the new state is that of the specification, for every packet and every answer of the parts it calls |
| VideoSpec.DeliveredInOrder | lib/src/videoreceiver.c:83-307 | over any run the unwrapped indices of the frames handed on strictly increase, so each is handed on at most once |
| VideoSpec.DeliveredReferencesPresent | lib/src/videoreceiver.c:239-301 | over every run, parsing an H.265 frame as it was handed on, patched or not, reports no reference or a frame that was in the reference list at that time |
| VideoRuns.AddedAreTracked | lib/src/videoreceiver.c:192-307 | over every run, from a log of the flushes that were tried: the frames put in the reference list are, in order, exactly those that FEC missed and those handed on, only frames flushed complete or recovered are handed on, and the counters of the last frame are those of the last flush that did not fail |
| VideoRuns.ConsecutiveHandedOn | lib/src/videoreceiver.c:83-307 | after any run, consecutive frames that are each received sufficiently, with whatever late packets, and whose slices name none or frames among themselves at most 16 back are all handed on, in order and unchanged; only the first can report losses, those from before, and nothing is lost after |
| VideoRuns.WholeStream | lib/src/videoreceiver.c:83-307 | from the beginning such a stream is handed on whole, with nothing lost and nothing recovered |
| VideoRuns.HandedOnIff | lib/src/videoreceiver.c:239-301 | a frame flushed complete or recovered is handed on as it is if and only if it has no P slice, or that names no reference, or a frame among the last 16 put in the list |
| VideoRuns.RepairedOrLost | lib/src/videoreceiver.c:249-281 | otherwise it is handed on patched to the closest earlier frame among those, and without such a frame or a patch it is counted as lost and not put in the list |
| VideoRuns.LostOnMiss | lib/src/videoreceiver.c:198-230 | a frame missed by FEC adds the frames since the last one dealt with if and only if the 16-bit indices have not wrapped in between; with every wrap 65536 are missing from the count |
| VideoRuns.TakenIff | lib/src/videoreceiver.c:85-172 | a packet is dropped exactly if it is 1 to 32767 frames behind or of an unknown stream; any other goes into the current frame, or a new one if it is 1 to 32767 frames ahead |
| VideoSpec.UnitsBelong | lib/src/videoreceiver.c:88-102 | the packets put into a frame carry its index exactly as long as none is taken that is 2^15 away from it |
| VideoSpec.HalfAwayJoins | lib/src/videoreceiver.c:88-102 | a concrete run: the packet of frame 2^15 goes into frame 0 |
| RecvPool.PacketQueue.constructor | lib/src/takion.c:227-240 | 512 distinct entries in the free list, and an empty queue |
| RecvPool.PacketQueue.TakeFree | lib/src/takion.c:1363-1374 | the first free entry, or none |
| RecvPool.PacketQueue.Receive | lib/src/takion.c:1376-1411 | the data goes into the entry or a new one, which is in no list |
| RecvPool.PacketQueue.FailToReceive | lib/src/takion.c:1381-1392 | the entry goes back to the free list |
| RecvPool.PacketQueue.Enqueue | lib/src/takion.c:1410-1430 | the packet becomes the last of the linked queue; a full one first loses its oldest, whose entry goes back if it is pooled; head, tail and count stay right |
| RecvPool.PacketQueue.Dequeue | lib/src/takion.c:1226-1242 | the oldest packet, or none if the queue is empty |
| RecvPool.PacketQueue.Process | lib/src/takion.c:1294-1305 | the bytes handed on are those received under the packet's number, and the entry goes back |
| RecvPoolSpec.StepKeepsInv | lib/src/takion.c:1214-1435 | every step of either thread keeps every pooled entry in exactly one place, the order of packets, and the limit of 512 |
| RecvPoolSpec.EveryInterleaving | lib/src/takion.c:1214-1435 | in every interleaving packets are processed in the order received, each at most once and none that was dropped |
| RecvPoolSpec.QueueChanges | lib/src/takion.c:1410-1430 | by numbers: a packet put goes behind all others, the oldest of exactly 512 is lost for it, the oldest is taken, and nothing else changes the queue or the losses |
| RecvPoolSpec.LosesOnlyWhenFull | lib/src/takion.c:1410-1430 | in every interleaving the packets lost are exactly the oldest ones at the moments when a packet is put behind 512 others |
| RecvPoolSpec.TakesPooled | lib/src/takion.c:1363-1374 | the receive thread goes without a pooled entry if and only if all of them hold packets in the queue or in processing |
| Base64.Encode | lib/src/base64.c:10-80 | it succeeds if and only if there is room for the encoding and a zero byte, and then writes exactly these |
| Base64Spec.EncodedLength | lib/src/base64.c:10-80 | the encoding has four characters for every three bytes or part of them |
| Base64Spec.EncodesBits | lib/src/base64.c:20-63 | its numbers are the input's bits in groups of six, with zeros at the end: section 4 of RFC 4648 |
| Base64.Decode | lib/src/base64.c:100-153 | it succeeds if and only if no foreign character stands before the first pad character and the bytes fit, and then writes exactly these |
| Base64Spec.RoundTrip | lib/src/base64.c:10-153 | decoding inverts encoding for every byte string |
| Base64Spec.TableOfSymbol | lib/src/base64.c:12-98 | the decoder's table inverts the encoder's alphabet |
| Base64Spec.SymbolIsCharacter | lib/src/base64.c:12 | the character of every value: A to Z, a to z, 0 to 9, + and / |
| Base64Spec.SymbolOfTable | lib/src/base64.c:86-98 | the table gives a value to no character but these, and sets apart exactly the newline and the pad character |
| Base64Spec.VectorF | lib/src/base64.c:10-80 | f encodes to Zg==: section 10 of RFC 4648 |
| Base64Spec.VectorFo | lib/src/base64.c:10-80 | fo encodes to Zm8= |
| Base64Spec.VectorFoo | lib/src/base64.c:10-80 | foo encodes to Zm9v |

## Left out

- `chiaki_reorder_queue_drop`, `chiaki_reorder_queue_peek` and the MAC re-check that uses them: dropping does not clear the slot, so payloads are not conserved across it.
- ReorderQueue.Queue.constructor: requires a size exponent that leaves a window of at most a quarter of the number space; the source only ever uses 8 with 32 bits.
- The giving-up path of the send buffer as a delivery claim: it removes undelivered packets; the lock it drops around the acknowledgement is modelled as not dropped.
- SendBuffer.Buffer.Resend: for that reason no other thread's packets or acknowledgements come in the middle of a pass.
- Message header fields other than the sequence number, channel and type (tag, key position, the 16-bit payload size), the cloud wrapper, and the socket's size limits.
- A full send buffer: the source ignores the refusal, and so does the model; the message is then sent once and not retransmitted.
- Delivery.DeliversPrefix: for fewer than 2^31 messages, because numbers further apart cannot be told apart on the wire.
- GKCrypt.Crypt.GetKeyStream: positions stay clear of the end of the 64-bit range by the size of the buffer and a chunk.
- GKCrypt.Crypt.Decrypt: the same, and two blocks more.
- Failing foreign calls: memory allocation, cipher contexts and mutexes; and the cache after the producer has stopped, except that it stays correct.
- States after a failed `chiaki_frame_processor_alloc_frame` or audio allocation beyond the slot limit, which leave fields partly updated: nothing is claimed until the next successful one.
- Audio.Reassembler.PutPacket: nothing is claimed of the call after a packet that announces too much, nor of the marks and the buffer it leaves, for the reason above; and a callback is set.
- The lemmas of AudioRuns, AudioParts and AudioSendings speak of runs without such packets.
- FrameProcessor.Processor.PutUnit: only after a successful allocation, for the same reason.
- Erasure codes with word sizes that Jerasure itself refuses; its matrices are not part of this model.
- Video: the result of the frame processor and the frame's bytes are parameters of a step, and so is what the parser and the patch answer for H.264 frames and for H.265 frames with something special in them; reports of corrupt frames, packet statistics and profile headers are not part of this model.
- Rbsp.Reader.U: emulation prevention and a NAL unit that ends before the input does; once either is found the reader stops, with `special` set.
- Rbsp.Reader.constructor: for the same reason it only notes that a start code lies ahead or the scan fires, and neither limits the NAL unit nor removes a byte.
- Rbsp.Reader.Scan: notes the first such byte and removes none, so `escaped` counts as if there were none.
- Rbsp.Reader.FillBits: the same.
- Bitstream.SliceH265: headers whose log2_max_pic_order_cnt_lsb_minus4 was rejected; that a header was refused and that an assertion failed are one outcome.
- Codes with more than 30 leading zeros, which would be shifted out of range, are a refusal.
- H.264 headers and sequence parameter sets, which use the same reader.
- Base64: characters are bytes from 0 to 255, as on platforms where `char` is unsigned.
- Failing allocations in the receive pool, and its teardown.
- Sockets, threads, logging, statistics, handshake, congestion control, discovery, HTTP, settings and the user interface.
