# Verified models of the asterius C support code

Asterius compiles Haskell to WebAssembly. The compiler itself is Haskell; what surrounds the
compiled programs is C: text codecs, hashing, number formatting and rounding (`asterius/libc`, the
`cbits` of the boot libraries), and the inline protocols and data structures of GHC's runtime
headers. This project models that C code in Dafny and proves what it is for.

`dafny verify dfyconfig.toml` checks everything.

| file | what it models |
|---|---|
| `Bits.dfy` | C's operators on unsigned words, bit by bit on naturals, and their arithmetic meaning |
| `Sequences.dfy` | laying chunks end to end, distinct elements, and other things the models share |
| `Utf8Dfa.dfy` | the table-driven UTF-8 automaton, and the transition function the table encodes |
| `Unicode.dfy` | scalar values, UTF-8 (RFC 3629) and UTF-16 (RFC 2781), stated without any automaton |
| `TextDecode.dfy` | the restartable UTF-8 to UTF-16 decoder and the Latin-1 decoder |
| `TextEncode.dfy` | the UTF-16 to UTF-8 encoder, and both round trips |
| `JsonString.dfy` | the JSON string unescaper against the grammar of RFC 8259 section 7 |
| `Md5.dfy` | the streaming MD5 context against RFC 1321 |
| `Rfc1321.dfy` | the pieces of that model as RFC 1321 words them: bits, schedules, padding, byte order |
| `SineTable.dfy` | the table of MD5 as the sines that RFC 1321 section 3.4 defines |
| `WeakMemory.dfy` | stores and loads that take effect in any order a `write_barrier` allows |
| `Publication.dfy` | publishing an indirection, over every interleaving |
| `ClosureLock.dfy` | the WHITEHOLE lock and the spin lock against an atomic lock, and which barrier that takes |
| `Rint.dfy` | rounding doubles and floats to integral values, ties to even |
| `ScatterGather.dfy` | `pdep`, `pext` and the population count |
| `Itoa.dfy` | printing numbers in decimal and hexadecimal |
| `FdReady.dfy` | the timed wait around `poll` |
| `RunQueue.dfy` | the run queue threaded through the threads |
| `BlockList.dfy` | doubly linked block lists |
| `Megablock.dfy` | megablock address and size arithmetic |

C that works in place is modelled by methods over arrays and classes; each is proved against a
function or predicate of its inputs, and the theorems are about those. A C pointer into a buffer
is the buffer with an offset. What the platform decides is a parameter: the processor family that
selects the fast paths of the codecs, the address that decides alignment, the byte order of the
host in MD5. Uninitialised C variables are parameters too, so that nothing depends on them.

Where code and documentation disagree, the models follow the code:

- The comment at text_cbits.c:121-123 says that on an invalid encoding the address of the first
  invalid byte is returned. The inner function returns the position behind that byte, and the entry
  points return `*src`, which is left at the start of the bad sequence. `RejectPosition` proves both, and
  that the start is the invalid byte exactly when it can begin no character; `RejectBehindStart` has
  the input E1 80 41.
- unescape_string.c accepts raw control characters and raw quotation marks, which RFC 8259 section 7
  does not allow unescaped (`BareByteIsGood`). `GoodIffRfcString` gives the difference exactly: a scan of
  the bytes for unescaped ones.
- The comment at SMP.h:250-255 holds that a lock needs no more than acquire semantics in `xchg` because
  unlocking starts with a store-store barrier. `CorrectIffFenced` shows what that barrier buys: the next
  holder finds the guarded words as they were left, but a load of the last holder that is still
  outstanding may return what the next one writes, unless the barrier orders loads as well. By the
  instructions at SMP.h:330-347 it does except on ARM (`CorrectExceptOnArm`).
- The comment at md5.c:102 calls the appended length MSB-first; the code appends the low word first and
  each word low byte first, as RFC 1321 section 3.2 asks.
- The comment at itoa.c:156 says nineteen digits; the code prints eighteen.
- The Cmm macro `Bdescr` (Block.h:233-234) and the C function of that name (Block.h:169-175) agree only
  on the first data block of a megablock; `CmmBdescrAgrees` has the exact condition.

## Model

| member | source | states |
|---|---|---|
| Utf8Dfa.ClassTable | asterius/libc/text_cbits.c:29-41 | the first 256 table entries are the twelve byte classes, given as ranges of bytes |
| Utf8Dfa.StateTable | asterius/libc/text_cbits.c:43-52 | for every state and byte, the rest of the table holds the successor state: lead bytes from ACCEPT, else only the continuation bytes that state allows |
| Utf8Dfa.LeadMask | asterius/libc/text_cbits.c:58-60 | shifting 0xff by the class and masking leaves the payload bits of every lead byte |
| Utf8Dfa.ContinuationBits | asterius/libc/text_cbits.c:58-59 | masking, shifting and joining appends six bits to a 32-bit code point, with its wrap |
| Utf8Dfa.Decode | asterius/libc/text_cbits.c:54-63 | one table lookup with masks is one step of the small transition function, for every state, code point and byte |
| Unicode.PrefixFree | asterius/libc/text_cbits.c:104-129 | no UTF-8 encoding of a scalar value starts another, so a byte string splits into characters in at most one way |
| Unicode.Examples | asterius/libc/text_cbits.c:278-303 | the encodings are those of the examples in section 7 of RFC 3629 and section 4.2 of RFC 2781 |
| Unicode.StepSound | asterius/libc/text_cbits.c:54-63 | after any byte the state says exactly which bytes are pending, or that the scalar value with just these bytes is complete; no overlong form, surrogate or value past 0x10FFFF gets in |
| Unicode.StepComplete | asterius/libc/text_cbits.c:54-63 | no byte of any well-formed encoding is refused |
| Unicode.PendingIsTruncated | asterius/libc/text_cbits.c:125-127 | the bytes of a state between ACCEPT and REJECT are a proper prefix of some character |
| TextDecode.RunMeaning | asterius/libc/text_cbits.c:138-201 | from any state the units are the UTF-16 of the completed scalars, these are encoded by the consumed bytes, and the final state describes what is left |
| TextDecode.DecodesLongestPrefix | asterius/libc/text_cbits.c:104-201 | for every input, `*src` moves by the longest prefix that concatenates well-formed encodings (RFC 3629 section 4), and the units written are the UTF-16 of exactly those scalars |
| TextDecode.FinalState | asterius/libc/text_cbits.c:115-127 | ACCEPT iff all input was consumed, REJECT iff the rest extends to no well-formed encoding, another state iff the rest is the start of one |
| TextDecode.RejectPosition | asterius/libc/text_cbits.c:121-123 | after a rejection `*src` is the start of a malformed sequence and the inner result is just behind its last byte, without which it is empty or the start of a character; the start is itself the offending byte iff it can begin no character |
| TextDecode.RejectBehindStart | asterius/libc/text_cbits.c:180-198 | on E1 80 41 the stored position is two bytes in front of the invalid one |
| TextDecode.Resume | asterius/libc/text_cbits.c:203-212 | decoding a second buffer from the saved state and code point gives the output and final state of decoding both at once, unless the first rejects |
| TextDecode.RejectStops | asterius/libc/text_cbits.c:180-184 | a rejected buffer is not rescued by what follows it |
| TextDecode.FeedIsRun | asterius/libc/text_cbits.c:203-212 | the same for any number of buffers, cut anywhere |
| TextDecode.OutputBound | asterius/libc/text_cbits.c:186-191 | one unit for a byte at most, and one more only when resuming inside a character |
| TextDecode.AsciiTest | asterius/libc/text_cbits.c:162 | the mask 0x80808080 is zero on a loaded word iff all four bytes are ASCII |
| TextDecode.AsciiFields | asterius/libc/text_cbits.c:171-174 | shifts and masks of a loaded word give back its four bytes in order |
| TextDecode.CopyAscii | asterius/libc/text_cbits.c:159-177 | the four-byte path writes what single steps would, stays inside the input, and leaves a state from which single steps go on alike |
| TextDecode.PutCodepoint | asterius/libc/text_cbits.c:186-191 | one unit, or the two units of a surrogate pair, are written and nothing else |
| TextDecode.DecodeUtf8Int | asterius/libc/text_cbits.c:138-201 | the loop, with its fast path on x86, leaves exactly the units, offsets, state and code point of the byte-at-a-time run, in just enough room, and touches nothing else |
| TextDecode.DecodeUtf8State | asterius/libc/text_cbits.c:203-212 | the restartable entry point reports the end of the last complete character and the state to go on from |
| TextDecode.DecodeUtf8 | asterius/libc/text_cbits.c:217-226 | the plain entry point decodes the longest well-formed prefix, whatever its uninitialised code point is |
| TextDecode.DecodeLatin1 | asterius/libc/text_cbits.c:70-101 | on every processor and alignment each byte becomes the unit of the same value, and nothing else is written |
| TextEncode.EncodeBound | asterius/libc/text_cbits.c:278-303 | three bytes for a unit at most |
| TextEncode.EncodeUnit | asterius/libc/text_cbits.c:278-293 | any unit but a high surrogate, an unpaired low one included, gives one, two or three bytes whose payload bits are the unit |
| TextEncode.EncodePair | asterius/libc/text_cbits.c:294-302 | a high surrogate and the next unit, whatever it is, give four bytes whose payload is 0x10000 plus the two offsets |
| TextEncode.EncodeIsUtf8 | asterius/libc/text_cbits.c:278-303 | well-formed UTF-16 is turned into the UTF-8 of the same scalars |
| TextEncode.DecodeOfUtf8 | asterius/libc/text_cbits.c:138-201 | UTF-8 of scalars decodes to their UTF-16, to the end, in ACCEPT |
| TextEncode.EncodeThenDecode | asterius/libc/text_cbits.c:228-306 | encoding then decoding returns the same units, all consumed, in ACCEPT, iff the units are well-formed UTF-16 |
| TextEncode.DecodeThenEncode | asterius/libc/text_cbits.c:138-306 | decoding then encoding returns the same bytes iff they are well-formed UTF-8 |
| TextEncode.EncodeOne | asterius/libc/text_cbits.c:279-302 | one turn of the scalar loop writes the bytes of one unit or surrogate pair, by shifts, masks and marks |
| TextEncode.CopyWords | asterius/libc/text_cbits.c:239-264 | the 64-bit path copies only ASCII units and stops at the first other one, or with fewer than four units left; it never reads past the end |
| TextEncode.CopyPairs | asterius/libc/text_cbits.c:266-276 | likewise the 32-bit path, which stops at the first pair with another unit, or with fewer than two left |
| TextEncode.EncodeUtf8 | asterius/libc/text_cbits.c:228-306 | on every processor the loops and the jump back to `ascii` terminate and write exactly the encoding of the units, nothing else |
| JsonString.ReadComplete | asterius/libc/unescape_string.c:54-149 | any input made of items, perhaps with an unfinished character behind, is read as what the items mean |
| JsonString.ReadSound | asterius/libc/unescape_string.c:54-149 | whatever is read without error is made of items, perhaps with an unfinished character behind |
| JsonString.ReadingIsGrammar | asterius/libc/unescape_string.c:54-149 | success iff the input concatenates items: raw scalars other than backslash, short escapes, non-surrogate `\uXXXX`, and high-then-low pairs (RFC 8259 section 7); 1 iff an unfinished character follows them; the output is the UTF-16 of their meaning for every way to split it |
| JsonString.ReadingIsWellFormed | asterius/libc/unescape_string.c:74-93 | the output is always well-formed UTF-16 |
| JsonString.GoodIffRfcString | asterius/libc/unescape_string.c:74-92 | input is a string body of RFC 8259 section 7, its escapes denoting characters, iff it is accepted and a scan finds no unescaped control character or quotation mark |
| JsonString.BareByteIsGood | asterius/libc/unescape_string.c:82-85 | every such byte on its own is accepted although it is no string of the RFC |
| JsonString.ShortEscapes | asterius/libc/unescape_string.c:94-106 | the eight two-byte inputs of the RFC's short escapes read as the one unit each denotes, by value |
| JsonString.OtherEscapes | asterius/libc/unescape_string.c:107-110 | after a backslash, any byte but those eight and `u` is an error |
| JsonString.HexDigits | asterius/libc/unescape_string.c:45-49 | the sixteen digits, in either case, have the values of their positions |
| JsonString.NotHexDigit | asterius/libc/unescape_string.c:50 | every other byte is refused |
| JsonString.HexEscape | asterius/libc/unescape_string.c:111-131 | six bytes of a backslash, `u` and four digits read as the number in base 16 unless that is a surrogate |
| JsonString.NextUnidata | asterius/libc/unescape_string.c:111-129 | the four shift-and-join steps build the number of the four digits without overflow |
| JsonString.StandardLoop | asterius/libc/unescape_string.c:74-93 | the `standard` label goes on as the reading does, to the end, an error or the byte after a backslash |
| JsonString.DecodeString | asterius/libc/unescape_string.c:54-149 | the label machine with its surrogate flag returns 0, 1 or -1 as the reading is good, cut or bad; it writes the reading's units, at most one for a byte; on -1 `*destoff` is unchanged |
| Md5.MixIsF1 | asterius/libc/md5.c:139-140 | the xor form of F1 is F of RFC 1321 section 3.4 for all words |
| Md5.MixIsF2 | asterius/libc/md5.c:141 | F2, which is F1 with its arguments turned, is G |
| Md5.MacroIsOperation | asterius/libc/md5.c:145-147 | MD5STEP, with shifts for the rotation and wrapping sums, is one operation of RFC 1321 section 3.4 |
| Md5.Round1 | asterius/libc/md5.c:165-180 | the sixteen unrolled F steps are operations 1 to 16 of the indexed recursion |
| Md5.Round2 | asterius/libc/md5.c:182-197 | the sixteen G steps are operations 17 to 32, words 5i+1 mod 16 |
| Md5.Round3 | asterius/libc/md5.c:199-214 | the sixteen H steps are operations 33 to 48, words 3i+5 mod 16 |
| Md5.Round4 | asterius/libc/md5.c:216-231 | the sixteen I steps are operations 49 to 64, words 7i mod 16 |
| Md5.Transform | asterius/libc/md5.c:155-237 | the transform is the compression of RFC 1321 section 3.4 for every chaining state and block, and leaves the block alone |
| Md5.ByteSwap | asterius/libc/md5.c:32-42 | on a host of either byte order the words become those of the little-endian reading, the rest stays |
| Md5.SwapConverts | asterius/libc/md5.c:28-42 | a swapped word, loaded by the host, is the little-endian word of the original bytes |
| Md5.LengthWords | asterius/libc/md5.c:127-128 | the two shifted counter words are the eight bytes of the bit length, modulo 2^64 |
| Md5.Context.Init | asterius/libc/md5.c:48-58 | the context of the empty message |
| Md5.Context.CountUp | asterius/libc/md5.c:71-73 | the two-word counter with its carry counts bytes modulo 2^64 |
| Md5.Context.Absorb | asterius/libc/md5.c:82-83 | a full buffer is folded into the chaining state as one block |
| Md5.Context.Keep | asterius/libc/md5.c:75-79 | data that does not fill the buffer is appended to it |
| Md5.Context.FillBlock | asterius/libc/md5.c:80-83 | data that fills it completes a block with the bytes before it |
| Md5.Context.Spill | asterius/libc/md5.c:80-97 | then come whole chunks, and the rest is kept |
| Md5.Context.AbsorbChunks | asterius/libc/md5.c:87-94 | the loop folds in all whole blocks of the data |
| Md5.Context.Update | asterius/libc/md5.c:64-98 | a context that has seen `m` has then seen `m` and the data: chaining state of the whole blocks, tail in the buffer, count with carry; bytes behind the tail are arbitrary |
| Md5.Context.PadBuffer | asterius/libc/md5.c:107-123 | both padding cases, one block or two, give the padding of RFC 1321 section 3.1 |
| Md5.Context.FinalBlock | asterius/libc/md5.c:124-129 | the last block is the padded bytes and the length, although only fourteen words are swapped |
| Md5.Context.Final | asterius/libc/md5.c:104-134 | the digest is MD5 of all bytes seen, and the context is erased |
| Md5.Digest | ghc-toolkit/boot-libs/base/GHC/Fingerprint.hs:50-86 | Init, any number of Updates, Final: on either byte order and however the message is cut, the result is RFC 1321's digest of the concatenation |
| SineTable.SineTable | asterius/libc/md5.c:165-231 | each of the 64 constants is the integer part of 2^32 times the absolute sine of its number in radians (RFC 1321 section 3.4), by the addition theorems, for whatever sine and cosine of 1 lie between the 16th and 17th partial sums of their series |
| SineTable.AngleError | asterius/libc/md5.c:165-231 | the thirty-digit sines and cosines the table is compared with stay within a growing error of the true ones |
| Rfc1321.MixBits | asterius/libc/md5.c:137-143 | bit by bit, F and G are conditionals, H the parity, and I as the RFC has it |
| Rfc1321.RotateBits | asterius/libc/md5.c:145-147 | `<<<` moves each bit up, and round from the top to the bottom |
| Rfc1321.WordSchedule | asterius/libc/md5.c:165-231 | the block words of the 64 operations in the order that the RFC lists them |
| Rfc1321.RotationSchedule | asterius/libc/md5.c:165-231 | and their rotations |
| Rfc1321.OneOperation | asterius/libc/md5.c:145-147 | each operation is the RFC's formula with sums modulo 2^32, and the registers change places |
| Rfc1321.Blocks | asterius/libc/md5.c:233-236 | the old registers are added after the operations of a block, whose words are read low byte first, and the blocks follow in order |
| Rfc1321.InitialWords | asterius/libc/md5.c:48-54 | the first chaining words are the bytes of RFC 1321 section 3.3, low byte first |
| Rfc1321.Padding | asterius/libc/md5.c:107-128 | the padded message is the message, 0x80, zeros to eight bytes short of a block, at most one block more than needed, and the length in bits modulo 2^64, low byte first |
| Rfc1321.Output | asterius/libc/md5.c:131-132 | the digest is the four registers in order, low byte first |
| WeakMemory.ViewLeave | ghc-toolkit/ghc-libdir/include/stg/SMP.h:111-120 | an operation that takes effect out of order changes nothing for its own processor |
| WeakMemory.FencedDrop | ghc-toolkit/ghc-libdir/include/stg/SMP.h:136-141 | whatever leaves the buffer, a store behind a barrier stays behind the stores before it |
| WeakMemory.LateDrains | ghc-toolkit/ghc-libdir/include/stg/SMP.h:136-141 | when a fenced store becomes visible, no earlier store is pending any more |
| Publication.InfoKept | ghc-toolkit/boot-libs/rts/Updates.h:69-92 | the invariant of an update of an ordinary closure holds after every step of any processor |
| Publication.IndirecteeKept | ghc-toolkit/boot-libs/rts/Updates.h:79-83 | so does that of an update of a black hole |
| Publication.GuardedIsSafe | ghc-toolkit/boot-libs/rts/Updates.h:69-92 | for every `p1` other than `p2`: with the barriers of the code and the readers' protocol, every observer that sees the BLACKHOLE info pointer reads `p2` and sees it built; for an earlier black hole it may read the former owner instead |
| Publication.FirstBarrierNeeded | ghc-toolkit/boot-libs/rts/Updates.h:79 | without the first barrier there is a run in which an observer of a black hole enters `p2` half built |
| Publication.SecondBarrierNeeded | ghc-toolkit/boot-libs/rts/Updates.h:82 | without the second there is a run in which the info pointer shows before the indirectee |
| Publication.ReadBarrierNeeded | ghc-toolkit/ghc-libdir/include/stg/SMP.h:143-148 | without the readers' barrier there is a run in which a stale indirectee is read |
| Publication.SafeIffGuarded | ghc-toolkit/ghc-libdir/include/stg/SMP.h:99-176 | an update, to a `p2` that `p1` did not refer to before, is safe in every run iff it has the barriers its kind needs |
| ClosureLock.StepSimulates | ghc-toolkit/boot-libs/rts/SMPClosureOps.h:56-125 | whatever the barrier does, each step of any thread on the weak machine is a legal one for an atomic lock and its holder |
| ClosureLock.ExcludesAlways | ghc-toolkit/boot-libs/rts/SMPClosureOps.h:56-125 | in every run at most one thread holds the lock, an acquirer gets what the last unlock stored, and failed attempts change nothing; this takes no barrier (when attempts fail is `FailsIffOccupied`) |
| ClosureLock.WordTellsAlways | ghc-toolkit/boot-libs/rts/SMPClosureOps.h:56-125 | in every reachable state at most one thread occupies the lock and the word is WHITEHOLE iff one does; for a spin lock, 0 iff one does and else 1; this takes no barrier |
| ClosureLock.FailsIffOccupied | ghc-toolkit/boot-libs/rts/SMPClosureOps.h:56-103 | in every reachable state where a thread may try, its attempt fails iff some thread occupies the lock; otherwise it takes the lock with the content of the word |
| ClosureLock.MayUnlock | ghc-toolkit/boot-libs/rts/SMPClosureOps.h:120-125 | a holder may store any info pointer but WHITEHOLE, and only 1 into a spin lock |
| ClosureLock.StepGuards | ghc-toolkit/boot-libs/rts/SMPClosureOps.h:120-125 | if the release waits for earlier stores, every step keeps the guarded words of the two machines together |
| ClosureLock.StoresHandOver | ghc-toolkit/boot-libs/rts/SMPClosureOps.h:120-125 | then in every reachable state a load that a holder executes at once returns what was written last, by whomever |
| ClosureLock.StepPromises | ghc-toolkit/ghc-libdir/include/stg/SMP.h:250-255 | if it waits for earlier loads too, every load returns what was written last when it was issued, however late it executes |
| ClosureLock.FencedIsCorrect | ghc-toolkit/ghc-libdir/include/stg/SMP.h:250-255 | so every run is one of an atomic lock over one memory |
| ClosureLock.StoresNeeded | ghc-toolkit/boot-libs/rts/SMPClosureOps.h:122-124 | if the release may pass stores there is a run in which the next holder reads an old value |
| ClosureLock.LoadsNeeded | ghc-toolkit/ghc-libdir/include/stg/SMP.h:250-255 | if it may pass loads there is a run in which a holder's load returns what the next holder wrote |
| ClosureLock.CorrectIffFenced | ghc-toolkit/ghc-libdir/include/rts/SpinLock.h:42-63 | for both locks: holders find the guarded words current iff the release waits for stores, and every run is one of an atomic lock iff it waits for stores and loads |
| ClosureLock.CorrectExceptOnArm | ghc-toolkit/ghc-libdir/include/stg/SMP.h:330-347 | with the instructions that `write_barrier` stands for, exclusion and hand-over hold on every processor, and all of it on all but ARM |
| Rint.RoundDivIsNearest | ghc-toolkit/boot-libs/base/cbits/primFloat.c:297-315 | quotient, remainder against one half, and parity of the quotient decide the nearest integer, ties to even |
| Rint.NearestIsUnique | ghc-toolkit/boot-libs/base/cbits/primFloat.c:267-270 | there is only one such integer |
| Rint.RoundedSignificand | ghc-toolkit/boot-libs/base/cbits/primFloat.c:298-329 | a rounded significand is zero, keeps its leading bit or is the next power of two |
| Rint.FieldMeaning | ghc-toolkit/boot-libs/base/cbits/primFloat.c:46-54 | the values 1 and -1.5 have the fields that the two formats give them |
| Rint.SmallestPositive | ghc-toolkit/boot-libs/base/cbits/primFloat.c:46-54 | the lowest bit alone is 2^-149 and 2^-1074 |
| Rint.MaskStep | ghc-toolkit/boot-libs/base/cbits/primFloat.c:291-297 | masking, clearing by exclusive or and testing one bit compute the rounding of the significand |
| Rint.RintFloat | ghc-toolkit/boot-libs/base/cbits/primFloat.c:275-330 | for every finite float the value of the nearest integer, ties to even (IEEE 754-2008 section 5.9), sign kept, a zero always positive; others and large values unchanged |
| Rint.HighWord | ghc-toolkit/boot-libs/base/cbits/primFloat.c:352-362 | a fraction reaching into the high word: rounding the two words together is rounding the high one, the low one only breaking ties |
| Rint.LowWord | ghc-toolkit/boot-libs/base/cbits/primFloat.c:393-417 | a fraction inside the low word: also where the mask is the whole word and the tie bit is in the high one |
| Rint.RintHigh | ghc-toolkit/boot-libs/base/cbits/primFloat.c:352-392 | the branch for fractions reaching into the high word rounds to the nearest integer |
| Rint.LowResult | ghc-toolkit/boot-libs/base/cbits/primFloat.c:406-440 | the carry out of the low word goes into the high one, and from there into the exponent |
| Rint.RintLow | ghc-toolkit/boot-libs/base/cbits/primFloat.c:393-441 | the branch for fractions inside the low word does too |
| Rint.RintDouble | ghc-toolkit/boot-libs/base/cbits/primFloat.c:336-443 | the same as for floats: split mantissa, wrap of `2*half` and carry into the exponent agree with one rounding of 53 bits |
| ScatterGather.RankIsCount | ghc-toolkit/boot-libs/ghc-prim/cbits/pext.c:8-18 | how many mask bits lie below a position is the population count of the mask's low bits |
| ScatterGather.GatherBit | ghc-toolkit/boot-libs/ghc-prim/cbits/pext.c:10-18 | the bit under the n-th set bit of the mask arrives at position n |
| ScatterGather.ScatterBit | ghc-toolkit/boot-libs/ghc-prim/cbits/pdep.c:9-22 | bit n arrives under the n-th set bit of the mask, all others are zero |
| ScatterGather.GatherFits | ghc-toolkit/boot-libs/ghc-prim/cbits/pext.c:4-21 | the result is below 2 to the number of set mask bits |
| ScatterGather.GatherScatter | ghc-toolkit/boot-libs/ghc-prim/cbits/pdep.c:4-25 | pext after pdep keeps the low popcount(mask) bits |
| ScatterGather.ScatterGather | ghc-toolkit/boot-libs/ghc-prim/cbits/pext.c:4-21 | pdep after pext keeps the bits under the mask |
| ScatterGather.LowestBit | ghc-toolkit/boot-libs/ghc-prim/cbits/pdep.c:11 | `-m & m` is the lowest set bit, and clearing it leaves exactly the bits above |
| ScatterGather.SignMask | ghc-toolkit/boot-libs/ghc-prim/cbits/pdep.c:17 | shifting up and arithmetically down spreads the lowest bit over the word |
| ScatterGather.Pdep64 | ghc-toolkit/boot-libs/ghc-prim/cbits/pdep.c:4-25 | the loop terminates, each pass clearing a mask bit, with the scattered bits |
| ScatterGather.Pext64 | ghc-toolkit/boot-libs/ghc-prim/cbits/pext.c:4-21 | the loop ends with the gathered bits |
| ScatterGather.LookupCounts | ghc-toolkit/boot-libs/ghc-prim/cbits/popcnt.c:4-14 | every table entry is the number of set bits of its index |
| ScatterGather.Popcnt64Counts | ghc-toolkit/boot-libs/ghc-prim/cbits/popcnt.c:41-53 | the eight lookups add up to the number of set bits |
| Itoa.NumeralDenotes | asterius/libc/itoa.c:86-108 | the text printed has no spare zero and denotes the number |
| Itoa.CanonicalIsNumeral | asterius/libc/itoa.c:86-108 | it is the only such text, in any base from 2 to 16 |
| Itoa.NumeralLength | asterius/libc/itoa.c:86-108 | a number has at most k digits iff it is below base^k |
| Itoa.SignedNumeralDenotes | asterius/libc/itoa.c:15-48 | a signed text is canonical and denotes its number |
| Itoa.SignedCanonicalIsNumeral | asterius/libc/itoa.c:15-48 | and is the only one that does |
| Itoa.NumeralThenPadded | asterius/libc/itoa.c:133-153 | padded digits behind a positive number's are the digits of the longer number |
| Itoa.LimbsTextIsNumeral | asterius/libc/itoa.c:133-174 | a list of limbs with positive head, head bare and the rest padded, prints as the canonical decimal of the big number |
| Itoa.PaddedDenotes | asterius/libc/itoa.c:133-174 | padded text denotes its number |
| Itoa.ReverseDigits | asterius/libc/itoa.c:40-47 | the swapping loop reverses its part of the buffer in place and leaves the rest |
| Itoa.EncodeDec | asterius/libc/itoa.c:33-38 | the digit loop writes the digits, lowest first, and no product or difference overflows |
| Itoa.SignedDec | asterius/libc/itoa.c:15-83 | for every int and long long, the minimum included, the canonical text is put at the buffer, its end is returned, nothing else changes and no operation overflows |
| Itoa.UnsignedDec | asterius/libc/itoa.c:86-130 | likewise for unsigned types |
| Itoa.UnsignedHex | asterius/libc/itoa.c:181-216 | likewise in hexadecimal, by masks and shifts |
| Itoa.PaddedDec | asterius/libc/itoa.c:136-174 | both padded loops put the padded text at the buffer, change nothing else, and no operation overflows |
| Itoa.DigitCharacter | asterius/libc/itoa.c:12 | digits print as the ASCII characters from 48 on, and from 97 on for ten and up |
| Itoa.Ranges | asterius/libc/itoa.c:15-130 | the ranges within which the printers' arithmetic stays are those of 32- and 64-bit integers |
| Itoa.IntDec | asterius/libc/itoa.c:15-48 | for every 32-bit int: the canonical signed decimal, its end, nothing else changed |
| Itoa.LongLongIntDec | asterius/libc/itoa.c:51-84 | the same for 64 bits |
| Itoa.UintDec | asterius/libc/itoa.c:87-107 | the canonical decimal of every unsigned 32-bit number |
| Itoa.LongLongUintDec | asterius/libc/itoa.c:110-130 | the same for 64 bits |
| Itoa.UintHex | asterius/libc/itoa.c:182-197 | the canonical hexadecimal of every unsigned 32-bit number |
| Itoa.LongLongUintHex | asterius/libc/itoa.c:200-215 | the same for 64 bits |
| Itoa.IntDecPadded9 | asterius/libc/itoa.c:136-154 | for every number below 10^9 exactly nine characters are written, decimal digits that denote it |
| Itoa.LongLongIntDecPadded18 | asterius/libc/itoa.c:156-174 | for every number below 10^18 exactly eighteen, likewise |
| Itoa.BignumDec | asterius/libc/itoa.c:133-174 | a bare first limb and padded others, in base 10^9 or 10^18, leave the canonical decimal of the big number in the buffer |
| FdReady.ComputePollTimeout | ghc-toolkit/boot-libs/base/cbits/inputReady.c:32-57 | -1 iff infinite; else the least number of milliseconds that covers the remaining time, iff that is at most 2147483647 milliseconds, and an int always |
| FdReady.FdReady | ghc-toolkit/boot-libs/base/cbits/inputReady.c:153-255 | over every run of poll results: 1 iff the last poll has data, -1 iff it fails, 0 iff it times out with nothing left to wait for, which is at or past the end time and never in an infinite wait; every earlier poll was interrupted or clamped, CHECK never fails, and no poll waits for less than what is left or a millisecond more |
| RunQueue.Capability.Append | ghc-toolkit/include-private/Schedule.h:132-145 | the thread joins the sequence at its end; links, ends and counter stay consistent |
| RunQueue.Capability.Push | ghc-toolkit/include-private/Schedule.h:153-167 | the thread joins at the front |
| RunQueue.Capability.Pop | ghc-toolkit/include-private/Schedule.h:170-186 | the front thread leaves with no link |
| RunQueue.Capability.Truncate | ghc-toolkit/include-private/Schedule.h:226-232 | the queue is empty; the threads keep their stale links |
| RunQueue.Capability.Empty | ghc-toolkit/include-private/Schedule.h:220-224 | a zero counter is an empty sequence is an absent head, and then tail and counter are as Capability.h:196-202 asserts |
| RunQueue.ForwardIsQueue | ghc-toolkit/include-private/Schedule.h:137-142 | walking the links from the head meets exactly the sequence |
| RunQueue.BackwardIsQueue | ghc-toolkit/include-private/Schedule.h:137-142 | walking back from the tail meets exactly the sequence |
| RunQueue.Perform | ghc-toolkit/include-private/Schedule.h:129-232 | each operation that its ASSERTs allow does to the lists what it does to a sequence, and exactly the truncated threads keep a link |
| RunQueue.Execute | ghc-toolkit/include-private/Schedule.h:129-232 | so does every run of operations, and the threads popped are those of the reference, in its order |
| RunQueue.Fifo | ghc-toolkit/include-private/Schedule.h:124-186 | with appends and pops alone, threads leave in the order they came and none is lost |
| RunQueue.PushThenPop | ghc-toolkit/include-private/Schedule.h:148-186 | a pushed thread leaves next and leaves the queue as it was |
| BlockList.MutuallyInverse | ghc-toolkit/ghc-libdir/include/rts/storage/Block.h:240-251 | in a well-formed list `link` and `back` undo each other and only the first block has no `back` |
| BlockList.LinkOnto | ghc-toolkit/ghc-libdir/include/rts/storage/Block.h:242-251 | insertion at the front |
| BlockList.LinkRemove | ghc-toolkit/ghc-libdir/include/rts/storage/Block.h:253-264 | deletion anywhere; the block removed keeps its own pointers |
| BlockList.LinkInsertAfter | ghc-toolkit/ghc-libdir/include/rts/storage/Block.h:266-275 | insertion after any block |
| BlockList.LinkReplace | ghc-toolkit/ghc-libdir/include/rts/storage/Block.h:277-291 | replacement of any block |
| BlockList.Perform | ghc-toolkit/ghc-libdir/include/rts/storage/Block.h:240-291 | an operation changes its own list as the sequence says and leaves every disjoint list as it is |
| BlockList.Execute | ghc-toolkit/ghc-libdir/include/rts/storage/Block.h:240-291 | every run over any number of lists keeps all of them well formed and disjoint, with the contents of the reference |
| Megablock.Constants | ghc-toolkit/ghc-libdir/include/rts/storage/Block.h:17-141 | the sizes as configured, and how the others follow from them |
| Megablock.BdescrIs | ghc-toolkit/ghc-libdir/include/rts/storage/Block.h:168-175 | masks and shifts select descriptor number i of the megablock, for an address in its block i |
| Megablock.BdescrPerBlock | ghc-toolkit/ghc-libdir/include/rts/storage/Block.h:168-175 | two addresses have the same descriptor iff they are in the same block |
| Megablock.BdescrOfData | ghc-toolkit/ghc-libdir/include/rts/storage/Block.h:181-210 | data addresses are those whose descriptor lies from FIRST_BDESCR on; all descriptors end before the first data block |
| Megablock.CmmBdescrAgrees | ghc-toolkit/ghc-libdir/include/rts/storage/Block.h:230-235 | the Cmm macro agrees with the C function iff the address is in the first data block |
| Megablock.BlocksToMblocksIsLeast | ghc-toolkit/ghc-libdir/include/rts/storage/Block.h:220-228 | the result is the least group that holds n blocks iff n is at most 2^52 - 4; the wraps below 252 cancel |
| Megablock.RoundToMblocks | ghc-toolkit/ghc-libdir/include/rts/storage/Block.h:332-354 | for every 64-bit request: unchanged up to one megablock, else the size of a group at most half a megablock away, the larger of two equally near; near 2^64 the wraps cancel |
| Megablock.RoundedIsUnique | ghc-toolkit/ghc-libdir/include/rts/storage/Block.h:334-335 | that determines the result |
| Megablock.RoundedIsMonotone | ghc-toolkit/ghc-libdir/include/rts/storage/Block.h:336-354 | a larger request never gets less |
| Megablock.RoundedIsIdempotent | ghc-toolkit/ghc-libdir/include/rts/storage/Block.h:336-354 | a rounded size is left alone |

## Left out

- TextEncode.EncodeUtf8: requires that a high surrogate is not the last unit, because the C code reads past the input there (text_cbits.c:295-297); other ill-formed UTF-16 is covered.
- TextDecode.DecodeUtf8Int: a pointer is an offset, so pointer comparisons such as `srcend - 4` near address zero are not modelled.
- SineTable.SineTable: Dafny has no sine, so the sine is what the addition theorems make of a sine and cosine of 1 that lie between neighbouring partial sums of their alternating series.
- FdReady.FdReady: the clock is a natural number with arbitrary delays; it is taken to stay in 64 bits, as are the end time and the length of the wait. Descriptors, the poll structure and `errno` values other than EINTR are not modelled.
- Rint.RintDouble: the union is a record of its fields, so byte order and the bits of a NaN payload are not modelled beyond being returned unchanged; `1 << 31` on int is taken to give the top bit.
- ScatterGather.Pdep64: the 8-, 16- and 32-bit entry points forward to this one and have no members of their own; `>>` of a negative number is taken to be arithmetic.
- ClosureLock.CorrectIffFenced: the spin and yield counters, `busy_wait_nop`, and the branch for a single capability, which takes no lock, are left out; a spin loop is any number of attempts. The atomic operations are taken to act on memory at once, after the thread's own stores to the word and before the loads behind them. A barrier that orders loads is an unlock that waits for the holder's loads of guarded words.
- ClosureLock.CorrectExceptOnArm: what the four families of processors do without an instruction, with `lwsync` and with `dmb st` is taken from their architectures; builds without SMP are not among them.
- Publication.SafeIffGuarded: one updater of `p1` is modelled, although two threads may evaluate one thunk and both update it, and the "only if" half takes a `p2` that `p1` did not refer to before. The LDV and overwriting hooks and the recording of mutable closures in `updateWithIndirection` are left out, and so is the Cmm form of the update.
- Itoa.BignumDec: the loop over the limbs is the callers', which are Haskell code outside this repository; what is modelled is how the two padded printers are meant to be used.
- Itoa.PaddedDec: numbers with more digits than the width, for which the C code writes in front of the buffer, are excluded, as its comments do.
- RunQueue.Capability.Append: the run queue counter is a natural number; its 32-bit wrap would need 2^32 threads in one queue. END_TSO_QUEUE is `null`. `promoteInRunQueue` and the write barriers of `setTSOLink` are not part of this model: their bodies are not in these headers.
- Megablock.BdescrIs: 64-bit words only, as the configured pointer size says.
- asterius/libc/text_cbits.c `_hs_text_memcpy` and `_hs_text_memcmp`: wrappers around libc.
- The Windows branches of inputReady.c, the block allocator, the work-stealing deque and the block-map cache: operating system calls or bodies that are not in the repository.
- ghc-toolkit/boot-libs/base/cbits/md5.c is a copy of the file modelled.
