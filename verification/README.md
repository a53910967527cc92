# Verified models of the client's core algorithms

Dafny models, with proofs, of the parts of this repository where a mistake would be hard to see:
the asynchronous file writer, the text codecs, SHA-256, the random number generator, the hook and
movement of a character, colour conversion, and the hand-over of a logger.

Each model follows its source branch by branch. Code that works in place is a class or a method over
arrays, proved against functions; the theorems are about those functions. Code shared between threads
is a step relation, and the theorems are about every run of it.

| module | what it models | main results |
|---|---|---|
| `AsyncRing` | the growable ring buffer of `ASYNCIO` | a first-in first-out byte sequence, and the exact sizes at which a write still succeeds |
| `AsyncProtocol` | writers, worker and owner of `ASYNCIO`, interleaved | bytes conserved, complete file at exit, no lost wake-up, one free, no use after it |
| `EditDistance` | the two-row edit distance over UTF-32 text | it is the least number of insertions, deletions and substitutions |
| `BitFacts`, `Sha256`, `Sha256Constants`, `Sha256Vector` | the built-in SHA-256 | any cutting into updates gives the digest of FIPS 180-4; the constants are the roots of the first primes |
| `Prng`, `PrngOutput` | the PCG generator | period exactly 2^64 from every state, every output equally often |
| `Utf8`, `Utf8Strings` | UTF-8 encoding, decoding, and bounded copies | decoder and encoder are inverse on exactly the scalar values; copies keep the longest whole prefix |
| `Base64` | streaming encoder and checking decoder | the accepted texts are exactly the encodings, decoded to what was encoded |
| `Ipv6Text` | printing of IPv6 addresses | the run of RFC 5952 is collapsed, the text fits, and reads back |
| `HookMachine`, `CharacterCore`, `HookWorlds` | the hook of a character and the index of hooked players | every step, exact; bounded holding; the index is exact over every run |
| `Collision`, `BoxMover` | tile tests and sub-stepped movement | corners decide for the whole box; a box never enters a wall or gains speed |
| `Colour` | RGB, HSL and HSV | exact round trips, with the exact condition in the other direction |
| `FutureLogger` | a logger that buffers until its target is set | no message twice, queue order kept, everything delivered once `Set` is back |

`Bytes`, `Wrappers`, `Powers`, `Vectors` and `Rounding` hold what several of them need.

Five results go against what a reader of the source might expect:

- `FutureLogger.LockIsLostIff`, `RestLeaksIff` and `LeakHappens`: a `Log` call that finds the target set
  only after it has taken the lock returns without giving the lock back (src/base/log.cpp:475-481), and
  every call waiting by then waits forever (`WaitersWaitForever`). The lock is lost exactly when some call
  takes it after the target was set; a finished run has lost it exactly when some call was waiting for it
  as `Set` gave it back.
- `AsyncRing.GrowthFate` and `OverrunHappens`: counting the queue, the new bytes and one more, a growing
  write succeeds up to 2^31 bytes; strictly between 2^31 and 2^32 its doubling loop wraps to zero and never
  ends; from 2^32 on the need itself has wrapped, and the loop ends at once with a buffer too small.
- `Sha256.AbsorbedIff` and `AllAbsorbedIff`: the size of an update passes through 32 bits, so an update
  absorbs all its data exactly when that is shorter than 2^32 bytes.
- `Utf8.RoundTripIff`, `SurrogateIsLost` and `NegativeIsByte`: the encoder accepts every number up to
  0x10FFFF, surrogates and negative numbers included, and exactly the scalar values survive decoding. A
  surrogate is not found again; a negative number becomes its lowest byte, so -191 comes back as 65.
- `Utf8Strings.StrUtf8Truncate`: a negative limit on the code points is no limit at all. The size handed to
  `str_copy` is zero, its bound wraps around, and the whole source is copied, past the given size if need be.

Arithmetic of fixed width is written out with its wrap-around. Floating point is modelled by the real
numbers. A length under a square root is compared through its square, or given as the non-negative
number whose square it is.

## Model

| member | source | states |
|---|---|---|
| AsyncRing.GrowthTerminatesIff | src/base/system.cpp:654-661 | for every 32-bit need, doubling from any size the buffer can have reaches it if and only if it is at most 2^31 |
| AsyncRing.GrowthFate | src/base/system.cpp:693-714 | with queued bytes, new bytes and one more in total: the loop ends with room for queue and data if and only if the total is at most 2^31, never ends if and only if it is strictly between 2^31 and 2^32, and otherwise ends at once with the old size, too small |
| AsyncRing.EndlessHappens | src/base/system.cpp:696-699 | an empty queue and a write of 2^31 bytes: no number of doublings reaches the need |
| AsyncRing.OverrunHappens | src/base/system.cpp:696-699 | an empty queue and a write of 2^32 - 1 bytes: the need is zero and the size stays 8 KiB |
| AsyncRing.NextBufferSize | src/base/system.cpp:654-661 | for every 32-bit need: the first doubling that is large enough, less than twice the need; the loop is reported as endless if and only if no doubling is large enough |
| AsyncRing.WindowAt | src/base/system.cpp:510-525 | byte k of the queue is k places behind the read position, modulo the size |
| AsyncRing.AsyncBuffer.constructor | src/base/system.cpp:615-625 | a new buffer is empty and has 8 KiB |
| AsyncRing.AsyncBuffer.BufferPtrs | src/base/system.cpp:510-525 | the two stretches lie in the buffer and together are the queue in order; the second is empty if the first is |
| AsyncRing.AsyncBuffer.BufferLen | src/base/system.cpp:642-652 | the number of queued bytes, in both positions of the write mark |
| AsyncRing.AsyncBuffer.WriteUnlocked | src/base/system.cpp:674-722 | for every 32-bit size: appends exactly the data to the queue if and only if the total is at most 2^31, in place if it fits with one byte to spare, else in a new buffer less than twice as large as needed; otherwise says which way the source goes wrong |
| AsyncRing.AsyncBuffer.AppendInPlace | src/base/system.cpp:680-692 | the wrap-around branch appends exactly the data |
| AsyncRing.AsyncBuffer.Grow | src/base/system.cpp:699-720 | with a sufficient new size, lays the queue out from zero and appends exactly the data |
| AsyncRing.AsyncBuffer.TakeChunk | src/base/system.cpp:572-591 | moves the first 64 KiB of the queue, or all of it, into the local buffer and drops exactly those bytes from the queue |
| AsyncRing.AppendedWindow | src/base/system.cpp:680-692 | placing data at the write position, round the end if need be, appends it to the window |
| AsyncRing.DroppedWindow | src/base/system.cpp:591 | advancing the read position modulo the size drops a prefix of the window |
| AsyncProtocol.StepKeepsInv | src/base/system.cpp:527-787 | every step of writers, worker and owner keeps the invariant: mutual exclusion, conservation, reference counting, no lost wake-up, one free |
| AsyncProtocol.RunKeepsInv | src/base/system.cpp:527-787 | the invariant holds in every state of every run, for any number of threads |
| AsyncProtocol.HistoryIsQueued | src/base/system.cpp:674-729 | the history of a run is the concatenation, in lock order, of the data its write steps handed over |
| AsyncProtocol.FinishIsTold | src/base/system.cpp:764-783 | the finish flag is what the closing and waiting calls so far make it, and closing prevails |
| AsyncProtocol.CallsTakeTheirCourse | src/base/system.cpp:663-783 | every caller goes through the stages of the call it made: only `aio_wait` joins, only `aio_free` gives up the reference |
| AsyncProtocol.TakesTheFront | src/base/system.cpp:572-591 | the worker takes the front of the queue, 64 KiB of it or all |
| AsyncProtocol.BytesAreConserved | src/base/system.cpp:543-601 | file, then the worker's local bytes, then the ring are at all times exactly what the write steps so far handed over, in lock order |
| AsyncProtocol.FileIsCompleteAtExit | src/base/system.cpp:555-565 | when the worker drops its reference the file holds everything the write steps so far handed over, and keeps holding exactly that for the rest of the run |
| AsyncProtocol.KeepsNoLostWakeup | src/base/system.cpp:566-569 | while the worker sleeps although there is work or a finish flag, the semaphore is positive or some thread still has to signal |
| AsyncProtocol.NoUseAfterFree | src/base/system.cpp:527-541 | the reference count is the number of holders, worker and owner; memory is freed at most once, when it is zero, and no enabled step touches it afterwards |
| AsyncProtocol.SectionsExclude | src/base/system.cpp:663-672 | no two callers are in critical sections of any kind at the same time, and none is in one together with the worker |
| AsyncProtocol.ContinuingDecreases | src/base/system.cpp:543-601 | without new calls every further step decreases a measure, so the writer comes to rest |
| AsyncProtocol.QuiescentIsDone | src/base/system.cpp:543-601 | where nothing under way can move, every call has returned; if nothing was closed or waited for, the worker sleeps and the file is everything handed over, otherwise it has ended; memory is freed exactly if `aio_free` was called and the worker ended |
| AsyncProtocol.CloseDelivers | src/base/system.cpp:764-771 | if nothing is written after the first close or wait, the file is everything ever handed over and the worker has ended once all has come to rest |
| AsyncProtocol.WaitDelivers | src/base/system.cpp:772-787 | when `aio_wait` returns the worker has ended and the file is everything handed over before it did |
| AsyncProtocol.ClosedIff | src/base/system.cpp:555-562 | the file has been closed exactly if some call had closed it by the time the worker gave up its reference |
| EditDistance.DistSymmetric | src/base/system.cpp:3109-3119 | swapping the texts, as the code does to save memory, does not change the distance |
| EditDistance.DistTriangle | src/base/system.cpp:3105-3139 | the triangle inequality |
| EditDistance.DistIsLowerBound | src/base/system.cpp:3130-3134 | no chain of edits between two texts is shorter than the recurrence |
| EditDistance.ShortestEdits | src/base/system.cpp:3130-3134 | a chain of edits exactly as long as the recurrence, built along it |
| EditDistance.DistIsMinimum | src/base/system.cpp:3105-3139 | the recurrence is the least number of insertions, deletions and substitutions |
| EditDistance.CellIsDist | src/base/system.cpp:3120-3134 | a table cell is the distance of two prefixes |
| EditDistance.StrUtf32DistBuffer | src/base/system.cpp:3105-3139 | returns that distance for texts of all lengths, staying inside a buffer of the asserted size |
| EditDistance.FillRow | src/base/system.cpp:3125-3136 | a row computed over the one before the previous one, the previous one untouched |
| Sha256Constants.PrimesAreTheFirst | src/base/hash_libtomcrypt.cpp:15-31 | the table of primes behind the constants lists every prime up to 311, in order, and nothing else |
| Sha256Constants.RoundConstants | src/base/hash_libtomcrypt.cpp:15-31 | section 4.2.2 of FIPS 180-4: constant i is the first 32 bits behind the point of the cube root of prime i |
| Sha256Constants.InitialHashValue | src/base/hash_libtomcrypt.cpp:112-124 | section 5.3.3: the initial hash value likewise, from the square roots of the first eight primes |
| Sha256Vector.EmptyDigest | src/test/hash.cpp:17 | the digest of the empty message is e3b0c442 98fc1c14 9afbf4c8 996fb924 27ae41e4 649b934c a495991b 7852b855 |
| Sha256.ChIsSpec | src/base/hash_libtomcrypt.cpp:55 | Ch is the choice function of section 4.1.2 of FIPS 180-4 |
| Sha256.MajIsSpec | src/base/hash_libtomcrypt.cpp:56 | Maj is the majority function of section 4.1.2 |
| Sha256.LoadStore | src/base/hash_libtomcrypt.cpp:36-53 | loading what was stored gives the word back, for every word of a block |
| Sha256.ShaRound | src/base/hash_libtomcrypt.cpp:82-103 | the macro and the rotation behind it are one round of section 6.2.2 |
| Sha256.ExpandSchedule | src/base/hash_libtomcrypt.cpp:73-79 | the array is the message schedule of section 6.2.2 |
| Sha256.ShaCompress | src/base/hash_libtomcrypt.cpp:64-108 | one block changes the state by the compression of section 6.2.2 |
| Sha256.HashAppend | src/base/hash_libtomcrypt.cpp:131-155 | hashing blocks in sequence is hashing their concatenation |
| Sha256.AbsorbedIff | src/base/hash_libtomcrypt.cpp:196-199 | an update absorbs all its data if and only if that is shorter than 2^32 bytes |
| Sha256.AllAbsorbedIff | src/base/hash_libtomcrypt.cpp:196-199 | a sequence of updates absorbs the whole concatenation if and only if every chunk is shorter than 2^32 bytes |
| Sha256.NothingAbsorbed | src/base/hash_libtomcrypt.cpp:196-199 | an update with 2^32 zero bytes absorbs none of them |
| Sha256.Context.constructor | src/base/hash_libtomcrypt.cpp:112-124 | an initialised context stands for the empty message |
| Sha256.Context.Update | src/base/hash_libtomcrypt.cpp:126-156 | the context then stands for its message followed by the absorbed data |
| Sha256.Context.Pad | src/base/hash_libtomcrypt.cpp:162-184 | the state becomes the hash of the padded message, in both branches around 56 bytes |
| Sha256.Context.Finish | src/base/hash_libtomcrypt.cpp:158-189 | the bytes are the digest of the message, most significant byte first |
| Sha256.PaddedBlocks | src/base/hash_libtomcrypt.cpp:165-184 | the padding of section 5.1.1 is the one or two blocks the code builds behind the blocks already absorbed |
| Sha256.BigEndianHolds | src/base/hash_libtomcrypt.cpp:41-46 | n big-endian bytes hold exactly the numbers below 256^n |
| Sha256.LengthFieldIsExact | src/base/hash_libtomcrypt.cpp:183 | below 2^61 bytes the length field has the base-256 digits of the exact bit length |
| Sha256.HashChunks | src/base/hash_libtomcrypt.cpp:191-206 | init, any updates and finish give the digest of the concatenation of what was absorbed |
| Prng.IterateIsJump | src/game/prng.cpp:50-51 | 2^k steps are one affine map with slope 1 modulo 4 * 2^k |
| Prng.StepsAddPowerOfTwo | src/game/prng.cpp:50-51 | 2^k steps act on the low k + 1 bits as adding 2^k, for every odd increment |
| Prng.Reaches | src/game/prng.cpp:50-51 | any k low bits are reached from any state in fewer than 2^k steps |
| Prng.ReturnIsMultiple | src/game/prng.cpp:50-51 | coming back to the same low k bits takes a multiple of 2^k steps |
| Prng.PeriodIff | src/game/prng.cpp:50-51 | n steps lead back to a state if and only if n is a multiple of 2^64 |
| Prng.FullPeriod | src/game/prng.cpp:31-54 | every one of the 2^64 states is reached from every other within one period |
| PrngOutput.UnmixMix | src/game/prng.cpp:52 | the xor-shift can be undone |
| PrngOutput.MixUnmix | src/game/prng.cpp:52 | and undoing it is one-to-one as well |
| PrngOutput.RotateExchanges | src/game/prng.cpp:26-29 | the rotation exchanges the upper and lower bits, shift zero included |
| PrngOutput.RotateLeftUndone | src/game/prng.cpp:26-29 | rotating right undoes rotating left |
| PrngOutput.StateHasOutput | src/game/prng.cpp:43-54 | for every top five bits, output and low 27 bits there is a state with that output |
| PrngOutput.StateFromOutput | src/game/prng.cpp:43-54 | and every state is of that form, so outputs are spread evenly over the states |
| PrngOutput.EveryOutputOccurs | src/game/prng.cpp:43-54 | within a period every 32-bit output occurs once for each of its 2^32 states |
| PrngOutput.EquallyOften | src/game/prng.cpp:43-54 | of the 2^64 draws of a period, from every state, exactly 2^32 yield each 32-bit output |
| PrngOutput.OnlyOnce | src/game/prng.cpp:43-54 | and no state occurs twice within a period |
| PrngOutput.OutputBits | src/game/prng.cpp:43-54 | the output in terms of bits: of the state xor-shifted by 18, the bits 27 to 58, rotated right by the number in bits 59 to 63 |
| PrngOutput.OddIncrement | src/game/prng.cpp:38 | the increment is odd whatever the seed, which the period rests on, and half of it is the seed on 63 bits |
| PrngOutput.SameIncrementIff | src/game/prng.cpp:38 | two seeds select the same stream if and only if they agree modulo 2^63 |
| PrngOutput.CPrng.Seed | src/game/prng.cpp:31-41 | the increment is odd and half of it is the second seed on 63 bits; the state is one step of the recurrence, written out, from first seed plus increment |
| PrngOutput.CPrng.RandomBits | src/game/prng.cpp:43-54 | returns the output of the old state and moves on by one step of the recurrence, written out |
| PrngOutput.Draw | src/game/prng.cpp:43-54 | n draws are the outputs of the first n iterated states |
| Utf8.ValueOfEncode | src/base/system.cpp:3799-3830 | the encoding of a scalar value is well formed and stands for that value |
| Utf8.EncodeOfValue | src/base/system.cpp:3799-3830 | a well-formed sequence is the encoding of the number it stands for, so overlong forms do not exist |
| Utf8.GrammarIsEncodings | src/base/system.cpp:3799-3830 | the sequences of the grammar in section 4 of RFC 3629 are exactly the encodings of scalar values |
| Utf8.StrUtf8Encode | src/base/system.cpp:3799-3830 | writes the encoding and nothing else, or nothing above 0x10FFFF |
| Utf8.StrUtf8Decode | src/base/system.cpp:3844-3909 | a result of zero or more is a scalar value whose encoding stands between the old and the new position; -1 means none starts there; at least one byte is consumed and the terminator is never passed |
| Utf8.PrefixFree | src/base/system.cpp:3844-3909 | at most one code point starts at a position, whatever follows |
| Utf8.RoundTripIff | src/base/system.cpp:3799-3830 | for every number the encoder accepts and whatever follows: the number is a scalar value if and only if something is found where it was encoded, and only that number |
| Utf8.SurrogateIsLost | src/base/system.cpp:3813-3819 | where a surrogate was encoded nothing is found |
| Utf8.NegativeIsByte | src/base/system.cpp:3802-3806 | a negative number is encoded as its lowest byte: another character, or no character of its own |
| Utf8.RoundTripFails | src/base/system.cpp:3799-3830 | 0xD800 is lost and -191 comes back as 65 |
| Utf8Strings.FitIsLargest | src/base/system.cpp:2749-2771 | the number of whole code points that fit, and that one more would not |
| Utf8Strings.StrUtf8Rewind | src/base/system.cpp:3761-3770 | goes back at least one byte, to a start byte or to the beginning, over continuation bytes only |
| Utf8Strings.StrUtf8FixTruncation | src/base/system.cpp:3772-3787 | the string is cut back to the repaired length, whatever its bytes |
| Utf8Strings.CutTextIsFixed | src/base/system.cpp:3772-3787 | valid text cut off anywhere is repaired to its whole code points before the cut |
| Utf8Strings.KeptIsLongest | src/base/system.cpp:2766-2771 | what is kept of valid text is the longest prefix of whole code points that leaves room for the terminator |
| Utf8Strings.StrCopy | src/base/system.cpp:2766-2771 | the destination holds what is kept of the source, on valid text the longest prefix of whole code points that fits; the result is its length |
| Utf8Strings.StrAppend | src/base/system.cpp:2749-2764 | the destination holds what is kept of old text followed by source, on valid texts the longest prefix of the code points of both that fits |
| Utf8Strings.TextPrefix | src/base/system.cpp:3911-3922 | text decodes in only one way: a prefix of a text is the text of a prefix |
| Utf8Strings.StrUtf8Check | src/base/system.cpp:3911-3922 | accepts a string if and only if it is the text of some code points |
| Utf8Strings.StrUtf8Truncate | src/base/system.cpp:2773-2788 | keeps the longest prefix within both the byte limit and the code point limit; under a negative limit the source is copied whole, whatever the byte limit, and the result says whether the allocation has room for it |
| Utf8Strings.TruncationSize | src/base/system.cpp:2773-2786 | the loop ends on the byte size of that prefix, and on -1 exactly under a negative limit |
| Base64.DigitInverse | src/base/system.cpp:3375-3398 | digit value undoes the table, and the table the digit value |
| Base64.AlphabetInOrder | src/base/system.cpp:3326-3332 | the alphabet of table 1 of RFC 4648, in its order |
| Base64.QuadIsNumber | src/base/system.cpp:3323-3373 | the digits of a quad make in base 64 the number its bytes make in base 256, with padding for missing bytes |
| Base64.QuadOfSpelled | src/base/system.cpp:3424-3462 | a quad of digits with zero padding bits is the encoding of the bytes it spells |
| Base64.SpelledOfQuad | src/base/system.cpp:3424-3462 | the encoding of one to three bytes spells those bytes, with the right count |
| Base64.EncodeInjective | src/base/system.cpp:3323-3373 | different bytes have different encodings |
| Base64.StrBase64 | src/base/system.cpp:3323-3373 | the buffer holds the encoding of section 4 of RFC 4648, as much as fits, terminated; nothing else is changed |
| Base64.LoadAndWrite | src/base/system.cpp:3336-3358 | loading a byte into the register and writing six bits gives the next character, for every phase and under 32-bit wrap-around |
| Base64.StrBase64Decode | src/base/system.cpp:3400-3467 | with room for three bytes a quad, a text is accepted if and only if it is the encoding of some bytes, and exactly those are stored; refusals name the first bad quad |
| Base64.RefusedText | src/base/system.cpp:3433-3462 | a text with a refused quad is the encoding of nothing |
| Ipv6Text.DigitsMean | src/base/system.cpp:1204-1210 | printed digits mean the number, without leading zeros |
| Ipv6Text.FindRun | src/base/system.cpp:1153-1185 | the run to collapse is the first longest run of at least two zero groups, as in section 4.2 of RFC 5952, or none |
| Ipv6Text.RunExamples | src/test/netaddr.cpp:99-110 | of 2001:0:0:1:0:0:0:1 the second run is collapsed, of 2001:db8:0:0:1:0:0:1 the first, and a single zero group never is |
| Ipv6Text.TextFits | src/base/system.h:843 | for every address and every 16-bit port the text and its terminator fit NETADDR_MAXSTRSIZE |
| Ipv6Text.ReadJoined | src/base/system.cpp:1187-1206 | a list of groups is read back from its text, whatever follows that cannot continue it |
| Ipv6Text.ReadText | src/base/system.cpp:1147-1212 | reading the text gives back exactly the eight groups and the port |
| Ipv6Text.Example | src/base/system.cpp:1147-1212 | 2001:db8:0:0:0:0:0:1 with port 8303 is printed as [2001:db8::1]:8303 |
| Ipv6Text.PrintedAll | src/base/system.cpp:1187-1211 | the turns of the loop print the groups on both sides of the collapsed run with "::" between them |
| Ipv6Text.NetAddrStrV6 | src/base/system.cpp:1147-1212 | a buffer of any size holds that text as far as it goes; one of NETADDR_MAXSTRSIZE holds all of it, and it reads back |
| HookMachine.FlightOutcome | src/game/gamecore.cpp:274-361 | which state follows a flight: grabbing without a player if and only if nobody is caught, it is not too long and hits ground; drawing back if and only if nobody is caught and it is too long or hits a no-hook tile; flying on exactly in the remaining cases without a catch; a player only if one was caught and may be kept |
| HookMachine.OtherOutcomes | src/game/gamecore.cpp:221-414 | what one tick makes of a hook that does not fly, case by case |
| HookMachine.TicksKeepSane | src/game/gamecore.cpp:221-414 | over any ticks the state stays between retracted and grabbed, only a grabbing hook has a player, and its timer is within the limit |
| HookMachine.ExactTransitions | src/game/gamecore.cpp:221-414 | exactly the listed states can follow each state, by input, over all answers of a world |
| HookWorlds.Stage | src/game/server/entities/character.cpp:77-82 | for every sane hook there is a world of two characters, the first with that hook and the other in its way |
| HookWorlds.Transition | src/game/gamecore.cpp:221-414 | in that world, for each state that can follow there are tuning, map and rules under which one tick leads there; the machine is told just what this world answers |
| HookMachine.HoldIsBounded | src/game/gamecore.cpp:407-413 | ticks that all end with a player hooked: it is the same player, the timer counts each, and they are at most the limit of 60 less the first timer |
| HookMachine.NoRelaunch | src/game/gamecore.cpp:259-273 | a hook drawing back is back after three ticks, catches nobody, and is not launched again before the player lets go |
| Vectors.ClosestIsClosest | src/base/vmath.h:166-180 | no point of the segment is closer than the one computed |
| Vectors.ClosestIsOnSegment | src/base/vmath.h:166-180 | the point computed lies on the segment, and there is one unless the segment has no length |
| CharacterCore.WorldCore.Spawn | src/game/server/entities/character.cpp:77-82 | a new character in an empty slot leaves the index exact if and only if nobody has that slot hooked |
| CharacterCore.WorldCore.Destroy | src/game/server/entities/character.cpp:107-112 | a character leaving its slot leaves the index exact if and only if it has nobody else hooked who is there |
| CharacterCore.CharacterCore.SetHookedPlayer | src/game/gamecore.cpp:668-690 | removes the character from every set and adds it to that of the new target, self-hook and replacement included; the index stays exact |
| CharacterCore.CharacterCore.CatchPlayer | src/game/gamecore.cpp:304-329 | the player caught is the nearest of those that can be caught, the lowest slot on ties, nobody if there is none; somebody already hooked stays |
| CharacterCore.CharacterCore.NearestIff | src/game/gamecore.cpp:304-329 | which means: among the players the rules let be hooked and of whom some point of the way is less than 30 units away, the one nearest to where the hook was |
| CharacterCore.CharacterCore.FlyHook | src/game/gamecore.cpp:274-361 | the flight is that of the hook machine, with the nearest player, and where the hook ends up |
| CharacterCore.CharacterCore.GrabHook | src/game/gamecore.cpp:363-414 | a player who is gone, may not be kept, or has been held too long is let go; otherwise the hook stays on the player |
| CharacterCore.CharacterCore.Tick | src/game/gamecore.cpp:151-418 | one step of the hook machine, told what the world answers; and for every state of the hook, in terms of the fields and of what the flight hit: state, timer, player and place afterwards, with the length limit counted from the character or the teleporter, the timer set at launch, and the time a player may be held; the index stays exact |
| CharacterCore.CharacterCore.TickDeferred | src/game/gamecore.cpp:420-496 | forgets the teleporter unless the hook flies; hooks and index untouched |
| CharacterCore.CharacterCore.Read | src/game/gamecore.cpp:588-604 | the state is that of the network object and the index stays exact |
| CharacterCore.CharacterCore.Write | src/game/gamecore.cpp:569-586 | the network object is the rounded state |
| CharacterCore.CharacterCore.Quantize | src/game/gamecore.cpp:661-666 | the state becomes its rounded self, the index stays exact |
| CharacterCore.PackIs | src/game/gamecore.cpp:569-586 | what is sent of each field: positions to within 1/2, velocities and hook direction to within 1/512, the rest as it is |
| CharacterCore.PackUnpack | src/game/gamecore.cpp:569-604 | writing after reading gives back every transmitted field |
| CharacterCore.QuantizedIsClose | src/game/gamecore.cpp:661-666 | rounding moves positions by at most 1/2 and velocities by at most 1/512, and is idempotent |
| CharacterCore.Do | src/game/gamecore.cpp:221-690 | an operation changes the hook of its character alone, and that by one step of the hook machine, to the hook of the network object, to the new player, or not at all; the index stays exact |
| CharacterCore.FollowsMachine | src/game/gamecore.cpp:221-414 | over any part of a run in which only ticks happen to a character it follows the hook machine; its hook stays sane, and while a player is hooked after every operation it is the same player, the timer counts every tick, and they are at most the limit of 60 less the first timer |
| CharacterCore.Run | src/game/gamecore.cpp:221-690 | after any sequence of ticks, reads, roundings and hook changes, i is in the set of h exactly when i has h hooked; the hooks before the first and after every operation are those of the steps taken, and every part of the run has the properties in the row above |
| Rounding.RoundIsNearest | src/base/math.h:14-17 | the result is a nearest integer, halves away from zero |
| Collision.IndexOfPixel | src/game/collision.cpp:277-289 | a tile has the 32 pixels from 32 times its index on; pixels outside belong to the border |
| Collision.TileOfPixel | src/game/collision.cpp:277-289 | what is read at a pixel is the tile of its row and column, if it takes part in collisions; solid are the tiles 1 and 3 |
| Collision.TestBoxIff | src/game/collision.cpp:464-476 | for boxes up to 31 units, so for a character, a corner is in solid ground exactly when some point of the box is |
| Collision.RoundingKeepsTestBox | src/game/collision.cpp:464-476 | rounding a position changes the test of the 28-unit box for no map and no position |
| Collision.QuantizeKeepsTestBox | src/game/gamecore.cpp:661-666 | so quantizing cannot push a free character into a wall or free a stuck one |
| Collision.TileMonotone | src/game/collision.cpp:277-289 | tile indices grow with the pixel, by at most one over 32 pixels, borders and negative pixels included |
| BoxMover.SubStepFollowsRule | src/game/collision.cpp:503-545 | a free box moves on; a blocked one stops and bounces along each axis whose own test hits, and along both, grounded in the same cases, if neither does |
| BoxMover.MoveHasPath | src/game/collision.cpp:478-551 | a whole move is one such step for each whole unit of distance and one more, each with the same part of the velocity and the clamped elasticity |
| BoxMover.SubStepKeeps | src/game/collision.cpp:503-545 | a sub-step from free space ends in free space, and no velocity component grows |
| BoxMover.SubStepsKeep | src/game/collision.cpp:492-545 | so after every number of sub-steps, with the distance gone along each axis bounded |
| BoxMover.SubStepIsShort | src/game/collision.cpp:484-503 | every sub-step is shorter than one unit |
| BoxMover.MovedIsSound | src/game/collision.cpp:478-551 | a whole move from free space ends in free space, gains no speed, and goes along each axis no further than its velocity |
| BoxMover.UnobstructedMove | src/game/collision.cpp:492-545 | if nothing is in the way the box arrives at position plus velocity, velocity unchanged |
| BoxMover.WallStep | src/game/collision.cpp:511-543 | at a wall the sub-step reverses the sideways velocity by the elasticity, keeps the vertical motion, and does not count as ground |
| BoxMover.FloorStep | src/game/collision.cpp:511-543 | at a floor or ceiling it reverses the vertical velocity and keeps the sideways motion; going down with positive elasticity grounds the box |
| BoxMover.MovesAlongWall | src/game/collision.cpp:478-551 | where solidity depends on the column alone, a whole move rises or falls by exactly the velocity |
| BoxMover.MovesAlongFloor | src/game/collision.cpp:478-551 | where it depends on the row alone, a whole move goes sideways by exactly the velocity |
| BoxMover.StandsStill | src/game/collision.cpp:494-500 | stopping the loop at velocity zero changes nothing |
| BoxMover.MoveBox | src/game/collision.cpp:478-551 | arrives where a path by these rules arrives, early exits included, and keeps the promises above; below the smallest distance nothing changes |
| BoxMover.SampleEnds | src/game/collision.cpp:292-301 | the samples of a line begin and end at its ends |
| BoxMover.SamplesAreClose | src/game/collision.cpp:292-301 | neighbouring samples of a line are less than one unit apart |
| BoxMover.IntersectLine | src/game/collision.cpp:292-321 | the first solid sample with its tile and the sample before it, or the end point if no sample is solid |
| Colour.WheelOfHue | src/base/color.h:17-35 | the hue wheel gives back the components above the lowest, in all sextants and on their borders |
| Colour.HueOfWheel | src/base/color.h:17-35 | every position on the wheel is found again from the components |
| Colour.HuesOfPrimaries | src/base/color.h:17-35 | red, yellow, green, cyan, blue and magenta stand at 0 to 5 sextants |
| Colour.HslOfExtremes | src/base/color.h:208-220 | lightness is the mean of the highest and lowest component, saturation their distance over the largest possible |
| Colour.HslOfRgbInRange | src/base/color.h:208-220 | hue is in [0,1), saturation and lightness in [0,1] |
| Colour.RgbThroughHsl | src/base/color.h:208-261 | RGB to HSL to RGB is the identity on all colours |
| Colour.HueOneIsZero | src/base/color.h:222-261 | hue 1, which a packed hue of 255 gives, is the colour of hue 0 |
| Colour.HslThroughRgbIff | src/base/color.h:208-261 | HSL to RGB to HSL is the identity exactly on coloured values and on greys with hue and saturation zero |
| Colour.HsvOfRgb | src/base/color.h:284-288 | value is the highest component, saturation the relative spread, all in range |
| Colour.HslThroughHsvIff | src/base/color.h:264-276 | HSL to HSV to HSL is the identity exactly where black and white have no saturation |
| Colour.HsvThroughHslIff | src/base/color.h:264-276 | HSV to HSL to HSV is the identity exactly when the value is not zero or the saturation is |
| Colour.RgbThroughHsv | src/base/color.h:278-288 | RGB to HSV to RGB is the identity on all colours |
| FutureLogger.StepKeepsInv | src/base/log.cpp:448-484 | every step of any number of `Log` calls and one `Set` keeps the invariant |
| FutureLogger.NoDoubleDelivery | src/base/log.cpp:448-484 | no message is delivered twice |
| FutureLogger.FastPath | src/base/log.cpp:467-475 | a call that finds the target set at once delivers without the lock, and any other goes for the lock |
| FutureLogger.ReplayedInOrder | src/base/log.cpp:458-463 | queued messages are delivered in the order in which the calls queued them, and all of them once `Set` is done |
| FutureLogger.DeliveredGrows | src/base/log.cpp:448-484 | what the target has got stays as it is, and a call that delivers adds its message behind it |
| FutureLogger.ReturnedIsDelivered | src/base/log.cpp:448-484 | once `Set` has returned, every message whose `Log` has returned has been delivered exactly once |
| FutureLogger.LockIsLostIff | src/base/log.cpp:475-481 | however a run goes on, the lock is never free again if and only if some call has taken it after the target was set |
| FutureLogger.RestLeaksIff | src/base/log.cpp:464-481 | a run that has come to rest has lost the lock if and only if some call was waiting for it when `Set` gave it back |
| FutureLogger.GivesBack | src/base/log.cpp:448-484 | a lock that is not lost can be given back: a continuation of the run that frees it |
| FutureLogger.LeakedIff | src/base/log.cpp:475-481 | a returned call still holds the lock if and only if some call found the target set on its second look |
| FutureLogger.WaitersWaitForever | src/base/log.cpp:475-481 | from then on no call waiting for the lock ever gets it |
| FutureLogger.LeakHappens | src/base/log.cpp:475-481 | a run of two calls and one `Set` that ends so |
| FutureLogger.CFutureLogger.Set | src/base/log.cpp:448-465 | by one thread: the target gets everything logged so far, in order |
| FutureLogger.CFutureLogger.Log | src/base/log.cpp:467-484 | by one thread: a message is added behind all earlier ones, kept or handed on |

## Left out

- AsyncProtocol.BytesAreConserved: `io_write` is assumed to write all it is given and `io_error` to report nothing; errors, `aio_error`, flushing and failing allocations are not modelled.
- AsyncProtocol.CloseDelivers: callers keep to what the handle needs: `aio_free` comes when no other call is under way and nothing is called after it. A second `aio_wait` joins again in the model, where the source would pass on a null thread.
- AsyncProtocol.StepKeepsInv: the ring is a byte sequence without a bound there; from which size on a write fails is the subject of `AsyncRing.AsyncBuffer.WriteUnlocked`.
- AsyncRing.AsyncBuffer.WriteUnlocked: a write that the source would never finish, or finish outside its buffer, is reported before it begins; what it would do to memory is not modelled.
- AsyncRing.AsyncBuffer.TakeChunk: the worker's bytes are copied under the lock as in the source; the file itself is in `AsyncProtocol`.
- EditDistance.StrUtf32DistBuffer: the texts must not overlap the buffer; converting UTF-8 to UTF-32 and `str_utf8_dist` are not modelled.
- Sha256.HashChunks: messages are shorter than 2^61 bytes, the limit of the standard; the OpenSSL variant is not modelled.
- PrngOutput.CPrng.Seed: the description string is not modelled.
- Utf8Strings.StrAppend: sizes are at least one and the destination holds a terminated string inside the buffer, which the function needs; source and destination do not overlap.
- Utf8Strings.StrUtf8Truncate: a copy under a negative limit that would leave the allocation is reported before it begins; what it would do to memory is not modelled.
- Base64.StrBase64: data and destination do not overlap, and the size of the destination is at least one.
- Base64.StrBase64Decode: partial output after a refusal is only said to stay inside the buffer.
- Ipv6Text.NetAddrStrV6: the groups are numbers already; byte order and parsing by the operating system are not modelled.
- CharacterCore.CharacterCore.Tick: jumping, friction, the angle, and the pull of the hook are arbitrary new values; triggered events and `m_Reset` are not modelled; what the map, the teams and the teleporters answer is an input.
- HookMachine.HoldIsBounded: the bound is one of the tick alone; for a character with an endless hook the server sets the timer back to zero after every tick (src/game/server/entities/character.cpp:2087-2088), which is not modelled.
- CharacterCore.CharacterCore.TickDeferred: pushing and dragging other characters are arbitrary velocities.
- CharacterCore.CharacterCore.SetHookedPlayer: only characters that are in their slot of a world; a core with no world or with id -1 keeps no index.
- CharacterCore.Run: `Reset` and `Init` on a character already in the world clear its own set without telling those who have it hooked, so they are no steps of a run.
- CharacterCore.CharacterCore.Read: the hooked player is in the range the network description demands.
- BoxMover.MoveBox: over the reals; rounding of floats, where a tiny fraction may stop the loop, is not modelled. The length of the velocity is a parameter. The grounded flag is always asked for.
- BoxMover.MovedIsSound: `CCharacterCore::Move` with player collision may stop between two positions this method has tested; it is not modelled.
- Colour.RgbThroughHsl: components are in [0,1]; alpha is carried through; packing into integers is not modelled.
- FutureLogger.StepKeepsInv: `Set` assigns the target a second time, which is a step of the model; that this assignment is not atomic, so that a reader could see it half done, is not modelled.
- FutureLogger.ReturnedIsDelivered: safety only; a message on the fast path may overtake the replay, and calls may wait forever as shown.
- Vectors.ClosestIsClosest: the case of a line of length zero, where the source reports nothing, is only in the definition.
- Sockets, files, processes, threads as objects of the system, clocks, configuration and rendering: calls into code outside this repository.
- `str_comp_filenames`, `swap_endian`, `find_next_power_of_two_minus_one`, tables of tiles and keys, team rules: easy members, finite data, or no claim the code supports.
- `ClampVel`, `ReadDDNet`, `CTuningParams`: field by field, nothing to prove beyond their text.
