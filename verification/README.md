# Tinybase: queues, text, search, paths and integers

A model of the parts of Tinybase that are hard to get right by reading them: the two lock-free queues, the
Unicode transcoder and the code-point operations on bytes, the SIMD searches, the path scanner, and integer
printing and parsing. The properties are statements about all inputs, all runs or all interleavings, but for the
few lemmas that give the input or the schedule on which the code falls short (StaleCursorHidesItem,
WholeHaystackIsMissed, RootExample, UIntSentinelTwice, IntSentinelTwice).

`dafny verify dfyconfig.toml` checks the project.

## The files

| file | what it holds |
|---|---|
| `MpscFreeList.dfy` | the free list as a step system: every load, store and exchange of a shared location is one step |
| `MpscInvariant.dfy` | the chain invariant, and that every step of every thread keeps it |
| `MpscRuns.dfy` | FIFO, gaps, node reuse and the meaning of NULL in every run |
| `MpscQueue.dfy` | the consumer running alone, and the code as methods on the queue structure |
| `MpscInit.dfy` | what a queue does whose Stub.Next was not NULL, and that it works exactly when it was |
| `RingBuffer.dfy` | the ring buffer: Init, conservation for any number of threads, and the code as methods |
| `RingCalls.dfy` | with any number of threads, exactly when a call of the ring fails |
| `RingFifo.dfy` | with one producer and one consumer the ring is a FIFO queue of bounded size |
| `RingThreads.dfy` | exactly which sets of threads may share the ring for that |
| `Unicode.dfy`, `UnicodeExamples.dfy` | the specification, and that it gives the examples of the standards: UTF-8 (RFC 3629 sections 3 and 4), UTF-16 (RFC 2781 sections 2.1 and 3), UTF-32 (section 3.10 of the Unicode Standard) |
| `CharEncoding.dfy`, `Packing.dfy`, `Utf8Codec.dfy`, `Utf16Codec.dfy`, `CharCodec.dfy` | the character codecs as the code has them, and their correctness |
| `Utf8Grammar.dfy` | the byte ranges of RFC 3629 section 4 are exactly the encodings of scalar values |
| `Transcode.dfy` | `string`, Transcode, round trips, code-point lengths |
| `Utf8Search.dfy` | CharInString, CountCharInString and ReplaceCharInString on UTF-8 |
| `Memory.dfy` | the byte-by-byte searches and edits |
| `Bits.dfy`, `Masks.dfy`, `Simd.dfy` | words bit by bit, the SSE2 and AVX2 byte searches and the SSE3 substring search |
| `Avx2.dfy`, `Utf8Avx2.dfy` | the AVX2 substring search, and exactly when it and CharInString on top of it are right |
| `Paths.dfy` | MoveUpPath and _AppendPathToPath as a stack of names |
| `PathLaws.dfy`, `PathDots.dfy` | what appending and moving up promise each other, and what appending does to the bytes, dot names included |
| `Integers.dfy`, `Digits.dfy` | NumberOfDigits, the Append functions for integers and the parsers, and their characters digit by digit |

## How to read the model

- The queues are step systems whose steps are sequentially consistent. Purely local work, and the consumer's own
  `Queue->Tail`, go with the shared access before them. The two logs `pushed` and `popped` are read by no step. The
  classes `Queue` and `Ring` hold the code statement by statement; their ghost parameter is the state of the step
  system that the memory belongs to, so the theorems about runs apply to them.
- A `buffer` or `string` passed by value is the sequence of its bytes, so the address it starts at is the sequence's
  index 0. Only the aligned SIMD searches need real addresses: there the haystack is a stretch of a flat memory.
- Strings and buffers that are written to are arrays, changed in place. `INVALID_IDX` is `None`.
- A ghost parameter `cs` or `c` names the scalar values of the text or character in the other parameters. It has no
  influence on what is computed.
- `_Transcode`, `_TranscodeUTF16BE` and `_TranscodeUTF32BE` differ in the switch that writes the bytes only: the
  model has one loop and three writers. The digit loop that both Append functions for integers contain is one method.
- InitBuffersArch sets two function pointers. Each of the three byte searches keeps the promise of the simple one, so
  the byte pointer is left out of the model (`FirstByteUnique`). Of the substring searches the simple and the SSE3 one
  keep it (`FirstUnique`) and the AVX2 one does not; CharInString, CountCharInString and ReplaceCharInString therefore
  take what the substring pointer points to as the parameter `search`. Their results hold for the simple and the SSE3
  search, and under AVX2 for characters of one byte, which are searched for as bytes.
- `memcpy` is a simultaneous assignment. CAS is the GCC branch of `src/tinybase-atomic.c:121-135`.
- StringToInt accumulates in a signed 64-bit number; where that overflows, the model wraps around.

## What the proofs found

- **InitMPSCFreeList** does not write `Stub.Next`, and its header does not ask for a zeroed structure. The queue works
  in every run if and only if that field was NULL (`InitNeedsZeroedStub`). Otherwise the first Pop returns a node
  nobody pushed (`StaleStubIsReturned`), or leaves Tail off the chain so that nodes pushed later never come back
  (`StaleStubLosesNodes`).
- **InitMPMCRingBuffer** leaves a power of two of slots inside the ring if and only if the size, cut to 32 bits, is at
  least 8 (`InitIsPowerOfTwo`). Below that `MaxCur` wraps to the largest word.
- **The ring with several threads**: the header says the write cursor never overtakes the read cursor. The ring is a
  bounded FIFO queue in every run if and only if there is at most one consumer and at most one producer; a ring of one
  slot takes any number of producers (`FifoExactly`). With two producers an item may even be hidden for good: nobody is
  running any more, the ring holds it, and Pop returns NULL (`StaleCursorHidesItem`).
- **The AVX2 substring search**, which InitBuffersArch installs where it can, is right for all contents if and only if
  the needle is longer than the haystack or the number of places where it fits is a multiple of 32 (`Avx2Exactly`). For
  other lengths it misses a needle at the very end, or finds one behind it. On well-formed UTF-8 the condition for
  CharInString is weaker, and as exact (`CharInStringAvx2Exactly`). U+00E9 is not found in itself
  (`WholeHaystackIsMissed`).
- **ReplaceByteInBuffer** with equal bytes, and ReplaceCharInString with equal one-byte characters, never return once
  the byte occurs (`ReplaceBySelfIsStuck`). In every other case they end, and the methods here prove it.
- **AppendUIntToString** counts digits on a signed number. Parsing the result gives the number back if and only if it
  is below 10^19 (`UIntRoundTrip`).
- **StringToUInt and StringToInt** answer a text with a non-digit by a number that is also the answer to its own text
  (`UIntSentinelTwice`, `IntSentinelTwice`).
- **MoveUpPath** by k levels leaves the empty path instead of the root, exactly when the path begins with a slash and
  has k names below it (`MoveUpLosesTheRoot`): "/a/" becomes "" (`RootExample`).

## Model

| member | source | states |
|---|---|---|
| MpscInvariant.BeginPushKeeps | src/tinybase-queues.c:16 | clearing the Next of a node the pusher owns keeps the whole invariant, whatever the other threads are in the middle of |
| MpscInvariant.ExchangeKeeps | src/tinybase-queues.c:17 | the exchange on Head keeps the whole invariant with the node appended to the chain; the gap before it is the one this push still has to link |
| MpscInvariant.LinkKeeps | src/tinybase-queues.c:18 | the store to Prev->Next keeps the whole invariant with the same chain: it fills the gap this push left and breaks no other link |
| MpscInvariant.TailMoveKeeps | src/tinybase-queues.c:31-39 | when Tail moves to the next node, past the stub or past a node that is returned, there is a next node in the chain and the whole invariant holds for the chain without its front |
| MpscInvariant.StubClearKeeps | src/tinybase-queues.c:45 | when Pop begins to push the stub, clearing Stub.Next keeps the whole invariant with the same chain, from which the stub is absent |
| MpscInvariant.PopStepKeeps | src/tinybase-queues.c:21-55 | every shared access of Pop keeps the invariant |
| MpscInvariant.ClientWriteKeeps | src/tinybase-queues.h:22-36 | the owner of a node outside the queue may write to it at any moment |
| MpscRuns.StepKeeps | src/tinybase-queues.c:12-55 | one invariant is kept by every step of every producer, of the consumer and of the owners of nodes |
| MpscRuns.RunKeepsGood | src/tinybase-queues.c:5-55 | the invariant holds after every prefix of every run from a zeroed, initialised queue |
| MpscInit.InitNeedsZeroedStub | src/tinybase-queues.c:5-10 | in every run from Init only pushed nodes come back, in order, and every Pop that runs alone returns the oldest queued one unless its own link is missing, if and only if Stub.Next was NULL before |
| MpscInit.StaleStubIsReturned | src/tinybase-queues.c:5-34 | whenever Stub.Next leads to a node with a further Next, the first Pop on the fresh queue returns it although nothing was pushed |
| MpscInit.StaleStubLosesNodes | src/tinybase-queues.c:5-55 | whenever it leads to a node without one, a run follows in which a pushed node is queued, no push is in flight, and Pop returns NULL and changes nothing |
| MpscRuns.FifoInEveryRun | src/tinybase-queues.c:12-55 | in every reachable state the nodes in the order of their exchange are the nodes Pop has returned, in that order, followed by the stub-free chain from Tail to Head: nothing is lost, duplicated or reordered and the stub is never returned |
| MpscRuns.ChainInEveryRun | src/tinybase-queues.c:16-46 | in every reachable state there is a repetition-free chain from Tail to Head whose neighbours are joined by Next or by exactly one push between exchange and link, whose last Next is NULL, and from which the stub is absent when it is pushed |
| MpscRuns.TouchedAreOwned | src/tinybase-queues.c:16-52 | every node whose Next a queue step loads or stores is the stub, is owned by the queue, or is being pushed by that step |
| MpscRuns.UntouchedCommutes | src/tinybase-queues.c:16-52 | a step of the queue neither reads nor writes the Next of any other node: a client write there commutes with it |
| MpscRuns.ClientNodesAreUntouched | src/tinybase-queues.c:16-52 | in every run, a node that was given back, or was never pushed, is not touched before its next push |
| MpscRuns.NoStrayLink | src/tinybase-queues.c:17-52 | when Pop returns a node, and when it resets Stub.Next, no push in flight holds that node, so no later link writes to it |
| MpscRuns.OnTheWayUntil | src/tinybase-queues.c:21-55 | while no link is missing at the oldest node, a Pop that began with it queued stays on a path that can only end in returning it |
| MpscRuns.NullMeansFrontGap | src/tinybase-queues.c:21-55 | a Pop that began with a node queued, x the oldest, and did not return x overlapped a moment at which a producer had still to make the link behind x, or the link from the stub to x; no push further back can block it |
| MpscQueue.PopAloneExactly | src/tinybase-queues.c:21-55 | with pushes stalled anywhere, a Pop that nobody interferes with returns the oldest queued node, and NULL if and only if there is none or the link right before or right behind it is missing |
| MpscQueue.NobodyWaits | src/tinybase-queues.c:12-55 | in every state every call that is running can make its next access, and new ones can begin |
| MpscQueue.QuietPop | src/tinybase-queues.c:21-55 | with no push in flight Pop returns the oldest queued node, or NULL only if there is none |
| MpscQueue.QuietDrain | src/tinybase-queues.c:21-55 | with no push in flight repeated Pops return every queued node in order, and then NULL |
| MpscQueue.Queue.constructor | src/tinybase-queues.c:5-10 | the memory after Init is the initial state, with every Next field as it was |
| MpscQueue.Queue.Push | src/tinybase-queues.c:12-19 | the three statements are the three steps of a push, and queue the node last |
| MpscQueue.Queue.Pop | src/tinybase-queues.c:21-55 | with nobody else running and pushes stalled anywhere, the code leaves the state that the consumer's steps reach and returns the oldest queued node, or NULL if and only if there is none or its link before or behind is missing |
| MpscQueue.Queue.PushStub | src/tinybase-queues.c:45-54 | the tail of Pop: pushing the stub step by step and looking at Next again gives what the step system gives |
| RingBuffer.RoundDownToPow2 | src/tinybase-types.h:225-235 | the result is the power of two with r <= value < 2r |
| RingBuffer.InitIsPowerOfTwo | src/tinybase-queues.c:62-73 | the slots are a power of two inside the ring if and only if the truncated size is at least one pointer; they then fill more than half of that size and no more than it, and otherwise MaxCur is the largest word |
| RingFifo.SlotOfCursor | src/tinybase-queues.c:78-91 | masking a wrapped 64-bit cursor with MaxCur is the count of operations modulo the number of slots |
| RingBuffer.ConservedStep | src/tinybase-queues.c:75-97 | every step of every thread, on whatever stale cursor, keeps the conservation of items and of counts |
| RingBuffer.BalancedInEveryRun | src/tinybase-queues.c:75-97 | in every reachable state, with any number of threads, pushed items are popped items plus items in slots as multisets, and the cursors corrected by the increments still to come differ by the number of occupied slots modulo 2^64 |
| RingCalls.PushFailsExactly | src/tinybase-queues.c:78 | with any threads, a Push fails if and only if the slot of the WriteCur it read is occupied when it tries; it then changes nothing and the ring is not empty; otherwise its item goes into that slot |
| RingCalls.LoadEndsExactly | src/tinybase-queues.c:89 | with any threads, a Pop finds NULL if and only if the slot of the ReadCur it read is free when it loads, so that the ring is not full |
| RingCalls.TakeExactly | src/tinybase-queues.c:90-91 | with any threads, the exchange of a Pop takes the item it has loaded if and only if the slot of the ReadCur it read the second time holds that item then |
| RingCalls.FailedTakeIsDisturbed | src/tinybase-queues.c:89-93 | if that exchange fails, another thread has taken an item or moved ReadCur since the call read ReadCur |
| RingCalls.NobodyWaits | src/tinybase-queues.c:75-97 | in every state every thread has an access that it can make |
| RingFifo.PairPushCas | src/tinybase-queues.c:78 | with one producer the compare-exchange succeeds exactly when fewer than N items are queued, and queues the item last |
| RingFifo.PairPopCas | src/tinybase-queues.c:90-91 | with one consumer the compare-exchange never fails and takes the oldest item |
| RingFifo.PairLoad | src/tinybase-queues.c:89 | with one consumer the slot read finds NULL exactly when nothing is queued |
| RingFifo.RunPair | src/tinybase-queues.c:75-97 | the one-producer, one-consumer invariant holds in every reachable state |
| RingFifo.PairRefinesBoundedFifo | src/tinybase-queues.c:75-97 | every interleaving of one producer and one consumer is, step by step, a run of a bounded FIFO queue of N items, the wrap of the cursors included |
| RingThreads.FifoExactly | src/tinybase-queues.c:75-97 | for every ring size and all sets of producers and consumers: every run is step by step a run of the bounded FIFO queue if and only if nobody pushes, or there is at most one consumer and at most one producer or one slot |
| RingThreads.TwoProducersFail | src/tinybase-queues.c:78-80 | with two producers and more than one slot, a Push fails in some run while the ring is not full |
| RingThreads.TwoConsumersFail | src/tinybase-queues.c:89-93 | with two consumers and more than one slot, a Pop finds NULL in some run while an item is queued, even with a single producer |
| RingThreads.OneSlotTwoConsumersFail | src/tinybase-queues.c:89-93 | with two consumers and one slot, the exchange of a Pop fails in some run while an item is queued |
| RingThreads.OneSlotIsFifo | src/tinybase-queues.c:75-97 | with one slot and at most one consumer, any number of producers share a FIFO queue of one item in every run |
| RingThreads.StaleCursorHidesItem | src/tinybase-queues.h:77-80 | a schedule of two producers and a consumer on two slots after which nobody is running, an item is in the ring, and Pop returns NULL |
| RingBuffer.Ring.constructor | src/tinybase-queues.c:62-73 | a zeroed ring of at least 8 bytes becomes an empty queue over the slots that Init computes, all of them inside the ring |
| RingBuffer.Ring.Push | src/tinybase-queues.c:75-84 | run alone, the code is the steps of a push, and its result says whether the item was stored |
| RingBuffer.Ring.Pop | src/tinybase-queues.c:86-97 | run alone, the code is the steps of a pop, and its result is the item taken or NULL |
| CharCodec.CharCorrect | src/tinybase-strings.c:24-80 | for every scalar value and each of the six encodings, at the start of any bytes that begin with its standard encoding: the size found from the bytes, the packed word read, the size found from the word, its decoding, and the bytes written from the encoded scalar value are all right |
| CharCodec.PackedRoundTrip | src/tinybase-encoding.c:81-221 | encoding after decoding is the identity on every packed character that is well formed, in all six encodings |
| Utf8Grammar.GrammarIsEncoding | src/tinybase-encoding.c:81-97 | a byte sequence is in the grammar of RFC 3629 section 4 if and only if it encodes a scalar value |
| Transcoding.TextInjective | src/tinybase-strings.c:436-471 | a text has one reading only, in every encoding |
| Transcoding.RecodesChar | src/tinybase-strings.c:441-449 | one turn of the loop reads the next scalar value of the source, advances by its size, and has its destination bytes to write |
| Transcoding.String.PutOrdered | src/tinybase-encoding.c:237-316 | the three writers store the bytes of the packed character in the destination's byte order and change no other byte |
| Transcoding.String.Append | src/tinybase-strings.c:436-471 | the transcoding loop succeeds if and only if the whole encoding fits, and rolls WriteCur back otherwise |
| Transcoding.String.Transcode | src/tinybase-strings.c:473-482 | for every well-formed source in any of the encodings: success if and only if the whole destination encoding fits in Size - WriteCur; then exactly that encoding of the source's scalar values is appended, otherwise WriteCur is restored; bytes before the old WriteCur and from Size on never change |
| Transcoding.RecodedKeepsScalars | src/tinybase-strings.c:436-482 | what Transcode appends is well formed and decodes to the source's scalar values |
| Transcoding.ChainRoundTrip | src/tinybase-strings.c:436-482 | any chain of transcodings keeps the scalar values, and one that comes back to its first encoding gives byte-identical text |
| Transcoding.String.AppendData | src/tinybase-memory.c:41-62 | appends all the bytes if they fit, and changes nothing otherwise |
| Transcoding.Utf8LenCodePoints | src/tinybase-encoding.c:44-56 | counting bytes that are not continuation bytes counts the scalar values of well-formed UTF-8 |
| Transcoding.Utf16LenCodePoints | src/tinybase-encoding.c:103-141 | stepping over surrogate pairs counts the scalar values of well-formed UTF-16 |
| Transcoding.StringLenCodePoint | src/tinybase-strings.c:100-115 | in every encoding the code-point length of well-formed text is the number of its scalar values |
| Utf8Search.LeadIsBoundary | src/tinybase-encoding.c:44-56 | a byte of well-formed UTF-8 that is no continuation byte begins a character |
| Utf8Search.OccursExactly | src/tinybase-strings.c:348-363 | the bytes of a character occur at an index of well-formed UTF-8 if and only if an equal character begins there |
| Utf8Search.CharInString | src/tinybase-strings.c:348-363 | with the simple or the SSE3 substring search, or for a character of one byte: the hit is where the first equal character begins, and a miss means there is none |
| Utf8Search.CountCharInString | src/tinybase-strings.c:376-388 | under the same condition, the result is the number of places in the text at which the character stands |
| Utf8Search.ReplaceCharInString | src/tinybase-strings.c:484-513 | under the same condition, or if the sizes differ: succeeds if and only if both characters have the same number of bytes; the text is then well formed and decodes to the old decoding with Old mapped to New, and is unchanged otherwise |
| Utf8Search.ReplacedText | src/tinybase-strings.c:495-498 | replacing the byte of a one-byte character everywhere replaces that character and no part of another |
| Utf8Avx2.CharInStringAvx2Exactly | src/tinybase-strings.c:348-363 | with the AVX2 substring search, CharInString for a character of m >= 2 bytes is right on every well-formed text of a given length, whatever lies behind it, if and only if the text is shorter than m bytes or (length - m) mod 32 is at least 32 - m |
| Utf8Avx2.NoStraddle | src/tinybase-strings.c:348-363 | a hit that begins inside well-formed UTF-8 also ends inside it |
| Memory.CopyData | src/tinybase-memory.c:30-39 | copies if and only if the source fits, and touches nothing else |
| Memory.EqualBuffers | src/tinybase-memory.c:133-145 | true if and only if the buffers have the same bytes, despite the short cuts on length, first and last byte |
| Memory.CompareIdx | src/tinybase-memory.c:96-117 | the first index at which the buffers differ, or the amount compared |
| Memory.ByteInBufferIdxSimple | src/tinybase-memory.c:151-162 | the first index of the byte, or none if it does not occur |
| Memory.ReverseByteInBufferIdxSimple | src/tinybase-memory.c:203-223 | the last index of the byte, or none if it does not occur |
| Memory.BufferInBufferIdxSimple | src/tinybase-memory.c:284-303 | the first index at which the needle occurs, or none |
| Memory.FirstUnique | src/tinybase-memory.c:284-303 | two searches that find the first occurrence return the same index |
| Memory.FirstByteUnique | src/tinybase-memory.c:151-162 | two searches that find the first byte return the same index |
| Memory.ReplaceByteInBuffer | src/tinybase-memory.c:81-90 | ends, and leaves the pointwise map of the original bytes and everything behind the buffer as it was |
| Memory.OneFewer | src/tinybase-memory.c:81-90 | each replacement leaves one occurrence fewer, the measure by which the loop ends |
| Memory.ReplaceBySelfIsStuck | src/tinybase-memory.c:81-90 | with equal bytes, after any number of turns the window still holds the byte, so the loop never ends |
| Masks.FirstBitIsFirst | src/tinybase-types.h:191-206 | the bit found is set and none below it is |
| Masks.ClearBitBits | src/tinybase-types.h:237-242 | exactly the named bit is cleared |
| Simd.FirstChunk | src/tinybase-memory.c:520-526 | the first mask has exactly the bits of matches inside the haystack: whatever precedes its base in the aligned chunk is masked out |
| Simd.ByteInBufferIdxSimd | src/tinybase-memory.c:458-564 | for 16 and 32 byte chunks, every base alignment and every length, the first index of the byte or none: the promise of the simple loop |
| Simd.RuleOut | src/tinybase-memory.c:706-718 | clearing the lowest bit after a failed comparison rules out that place only |
| Simd.BufferInBufferIdxSSE3 | src/tinybase-memory.c:691-740 | for every haystack and every needle of one byte or more, the first index at which the needle occurs or none: the promise of the simple search |
| Avx2.BufferInBufferIdxAVX2 | src/tinybase-memory.c:566-614 | the first occurrence in memory among the places that the blocks of 32 cover: none if needle and haystack have the same length, otherwise up to a block boundary that may lie before or behind the last place where the needle fits |
| Avx2.Avx2Exactly | src/tinybase-memory.c:566-614 | it is the first occurrence in the haystack for every needle and haystack of given lengths, whatever lies behind, if and only if the needle is longer or (difference of the lengths) mod 32 is 31 |
| Avx2.WholeHaystackIsMissed | src/tinybase-memory.c:574-576 | the two bytes of U+00E9 are not found in themselves |
| Avx2.BufferInBufferIdx | src/tinybase-memory.c:746-767 | both other searches the pointer may have return the first occurrence |
| Paths.SplitRender | src/tinybase-platform-linux.c:497-527 | the names the scanner finds, each followed by a slash, and the rest after the last slash make up the path again |
| Paths.SplitUnique | src/tinybase-platform-linux.c:497-527 | and they are the only names without slashes that do |
| Paths.MoveUpPath | src/tinybase-platform-linux.c:458-477 | leaves the names but for the last MoveUpCount, each closed by a slash, for a path with or without a slash at its end; the result tells whether the stripped length has changed |
| Paths.CloseName | src/tinybase-platform-linux.c:504-520 | at a slash a name is skipped, goes one up, or is pushed with its slash if that fits; what that means for the bytes is said by the rows of PathDots |
| Paths.AppendPathToPath | src/tinybase-platform-linux.c:479-539 | appending is the left fold of the source's names over the stack of the destination's names, an unterminated last name copied as it is; success if and only if every step fits, with a 0 behind; WriteCur stays otherwise |
| PathLaws.OrdinaryNamesArePushed | src/tinybase-platform-linux.c:504-520 | names other than `.` and `..` are all pushed exactly when the whole result fits |
| PathLaws.MoveUpUndoesAppend | src/tinybase-platform-linux.c:458-539 | moving up as many levels as ordinary names were appended to a relative path gives back that path with one slash at its end, or the empty path |
| PathLaws.MoveUpLosesTheRoot | src/tinybase-platform-linux.c:461-475 | for every path and k >= 1, the names but for the last k are left, each closed by a slash, if and only if it is not the case that the path begins with a slash and has k + 1 names |
| PathLaws.RootExample | src/tinybase-platform-linux.c:461-475 | one level up from "/a/" is the empty path and not "/" |
| PathLaws.WalkLeavesNoDots | src/tinybase-platform-linux.c:504-520 | whatever is appended, what is left of the names that were there is their front, and no `.` or `..` stands behind it |
| PathLaws.AppendInTwoGoes | src/tinybase-platform-linux.c:479-539 | two calls give what one call on both sources gives, success and bytes alike, if the first source ends in a slash and the second does not begin with one |
| PathDots.AppendIsConcat | src/tinybase-platform-linux.c:479-539 | without dot names, the path with one slash at its end and then the source, byte by byte, if and only if that fits; on an empty path a leading slash is kept |
| PathDots.LeadingSlashIsDropped | src/tinybase-platform-linux.c:491-495 | on a path that is not empty one leading slash of the source makes no difference |
| PathDots.NameAndUpCancel | src/tinybase-platform-linux.c:504-520 | a name followed by `..` anywhere in the source, if the name fits, may be left out of it; only at the root the path then goes on from nothing |
| PathDots.DotIsNothing | src/tinybase-platform-linux.c:504-506 | a `.` anywhere in the source may be left out of it |
| PathDots.UpTakesLastName | src/tinybase-platform-linux.c:507-511 | a `..` at the front of the source takes exactly one name off the path: "../x/" after "a/b/" is "x/" after "a/" |
| Integers.NumberOfDigits | src/tinybase-types.h:294-304 | the count d satisfies 10^(d-1) <= n < 10^d for the magnitude n of a nonzero number, and is 1 for zero |
| Integers.StringToUInt | src/tinybase-strings.c:243-260 | in every encoding: 0xFFFFFFFFFFFFFFFF if any character is not between 0x30 and 0x39, and otherwise the value of the digits modulo 2^64 |
| Integers.StringToInt | src/tinybase-strings.c:220-241 | in every encoding, with 0x2D in front or not: 0x7FFFFFFFFFFFFFFF if any other character is not between 0x30 and 0x39, and otherwise the 64-bit signed number congruent to the signed value |
| Integers.AppendUIntToString | src/tinybase-strings.c:596-616 | in every encoding the text of PrintedUInt is appended if and only if it fits, and nothing changes otherwise; the rows of Digits say what its characters are |
| Integers.AppendIntToString | src/tinybase-strings.c:618-647 | the same for PrintedInt, with a minus sign before the digits of a negative number |
| Integers.NarrowText | src/tinybase-strings.c:602-613 | a buffer with a digit at the byte that CharSize and Offset select, the rest zero, is the text of those digits in that encoding |
| Integers.ValueOfDecimal | src/tinybase-strings.c:607-612 | the last d decimal digits of n have the value n mod 10^d |
| Digits.PrintedUIntDigits | src/tinybase-strings.c:607-612 | character k from the end of an unsigned number is 0x30 plus its decimal digit of place k |
| Digits.PrintedUIntLength | src/tinybase-strings.c:596-612 | every number below 10^19 is printed with as many digits as it has |
| Digits.PrintedIntDigits | src/tinybase-strings.c:636-642 | character k from the end of a signed number is 0x30 plus the decimal digit of its magnitude of place k |
| Digits.PrintedIntLength | src/tinybase-strings.c:618-642 | there are as many digits as the magnitude has, with 0x2D before them if the number is negative |
| Digits.OneDigit | src/tinybase-strings.c:607-612 | in ASCII a number d below 10 is the one byte 0x30 + d |
| Digits.MinusFirst | src/tinybase-strings.c:629-633 | in ASCII the first byte of a negative number is 0x2D |
| Digits.ValueDigit | src/tinybase-strings.c:248-258 | decimal digit k of the number read is character k from the end less 0x30 |
| Digits.ValueBound | src/tinybase-strings.c:248-258 | the number read has no more digits than characters |
| Digits.UIntSentinelTwice | src/tinybase-strings.c:252-255 | "12a" is answered by USZ_MAX, and so is the text of USZ_MAX itself |
| Digits.IntSentinelTwice | src/tinybase-strings.c:233-236 | "12a" is answered by ISZ_MAX, and so is the text of ISZ_MAX itself |
| Integers.UIntRoundTrip | src/tinybase-strings.c:596-616 | parsing what was printed gives the number back if and only if it is below 10^19 |
| Integers.IntRoundTrip | src/tinybase-strings.c:618-647 | parsing what was printed gives the number back, for every 64-bit number but the smallest |

## Left out

- Weak memory orderings: steps are sequentially consistent.
- Queue and Ring: the methods are the code with nobody else running; interleavings are the step systems' part.
- Ring.constructor: a NULL ring, and a size whose 32-bit truncation is zero or negative, for which C leaves RoundDownToPow2 undefined.
- The MSVC branches of the atomics and of RoundDownToPow2.
- String.Append: which bytes a failed transcoding leaves between WriteCur and Size.
- String.Transcode: malformed sources, ASCII destinations for other than ASCII content, and a source that overlaps the destination.
- Utf16LenCodePoints: malformed UTF-16, where the code may step past the end.
- CharInString, CountCharInString and ReplaceCharInString on UTF-16 and UTF-32, where byte matches may be misaligned, and on malformed UTF-8.
- CountCharInString and ReplaceCharInString for characters of several bytes under the AVX2 substring search: they repeat CharInString on shorter and shorter rests of the text, so that the lengths for which CharInStringAvx2Exactly says it is right do not persist.
- ReplaceCharInString: equal one-byte characters that occur in the text, and in ReplaceByteInBuffer equal bytes that occur: there is no result.
- BufferInBufferIdxSimple and BufferInBufferIdxSSE3: the empty needle, for which the code reads before its first byte.
- `__BufferInBufferIdxAVX2` (src/tinybase-memory.c:617-689), which nothing points to.
- BufferInBufferIdxAVX2: the empty needle.
- AppendPathToPath: which bytes a failed append leaves behind the path, a source that overlaps the destination, and a `..` with nothing to go up from, for which the code reads before the buffer.
- AppendPathToPath: of an empty source the code reads one byte, taken here to be no slash.
- MoveUpPath: the empty path, for which the code reads before the buffer.
- StringToInt: the empty string, of which the code reads the first character.
- AppendIntToString: the smallest 64-bit number, whose absolute value overflows.
- EatNextChar, the LEN_PRINTCHAR and LEN_CSTRING lengths, StringToHex, and floating-point printing and parsing.
- CompareBuffers, the flag dispatchers of the searches, the arena, and the appends that only combine those above: easy members only.
- The platform layer but for the two path functions, and the Windows paths, which repeat them.
