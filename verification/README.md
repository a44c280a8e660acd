# Map router packet pipeline: a verified model

This project models the path a packet takes through GoFFXI's map router, and proves what that path guarantees.

* **Codec** (`bytes.dfy`, `codec_spec.dfy`, `codec.dfy`, `alphabet.dfy`, `zlibref.dfy`): the static variable-length FFXI code, its bit
  writer over a reused buffer, the jump-table decoder, the loader, tables on which everything assumed of them holds, and the independent C++ compressor.
* **Cipher** (`cipher_spec.dfy`, `cipher.dfy`): the modified Blowfish, its use in ECB mode (section 6.1 of NIST SP 800-38A) on packets, its
  keys, and the key schedule that rewrites the tables while enciphering with them.
* **Framing and packing** (`packing.dfy`, `framing.dfy`): sub-packets, greedy packing under 1300 bytes, and the datagram
  (header, compressed payload, bit count, digest, encryption).
* **Router** (`protocol.dfy`, `wire.dfy`, `router.dfy`, `delivery.dfy`): the per-address queues, bursts, requeueing, sequence numbers,
  what all this puts on the wire, and what a client reads of a flushed queue.
* **Incoming packets** (`gate.dfy`, `inbound.dfy`): session creation by login, the receiver, sub-packet dispatch, and which of a
  client's datagrams get as far as that.

Specification functions state what each operation means; a class or method beside them keeps the source's own fields, arrays
and loops and is proved equal to them; the theorems are about the functions and so hold of the methods. The classes are
`Codec.FFXICodec`, `Cipher.Blowfish`, `Router.Session`, `Router.MapRouterServer`. The C++ compressor is modelled on its own
and proved against the same specification.

The strongest statements, by topic:

* `Delivery.FlushThenRead`, `Framing.EndToEnd`: outbound round trips through the whole pipeline.
* `Inbound.ForwardedExactly`, `Inbound.HandleClientDatagram`: inbound, exactly which of a client's datagrams are forwarded.
* `CodecSpec.RoundTrip`, `CodecSpec.CompressInjective`, `CodecSpec.CompressOutcome`, `ZlibReference.CompressorsAgree`: the codec.
* `Packing.GreedyIsOptimal`, `Protocol.FewestDatagrams`: no in-order packing uses fewer datagrams.
* `Protocol.InvariantOverRuns`, `Protocol.QueueConservation`, `Protocol.ExactlyOnce`, `Protocol.NumbersOverRuns`,
  `Protocol.CompletableExactly`: safety over every interleaving of arrivals, sends, failures and acknowledgements, and what can be completed at all.
* `Router.MapRouterServer.FlushSessionQueue`, `Router.MapRouterServer.CompletedIsOnWire`: the same for the server object and the bytes it has written.
* `CipherSpec.PacketInverse`, `CipherSpec.EncipherIsSixteenRounds`, `CipherSpec.TtExactly`, `CipherSpec.ScheduleIsSelfEnciphered`,
  `CipherSpec.InitialTablesExactly`, `Router.Session.Rotate`: the cipher and its key rotation.
* `Gate.ParseLoginExactly`, `Gate.CreatesExactly`, `Gate.GateOverRuns`, `Gate.GateFromEmpty`: logins, and the login gate over every run of incoming datagrams.

## Where the code's own conventions disagree

These are modelled as written, and the disagreement is itself proved.

* `Compress` returns eight bits more than the data; `Decompress` takes its count as data bits only. The codec's test subtracts the
  eight (`internal/tools/zlib/codec_test.go:100-107`), the router does not. `CodecSpec.CountAsReturned` gives the exact result of not subtracting,
  `CodecSpec.CountAsReturnedBoundary` its boundary, and `Framing.RouterRejectsItself` the consequence: the receiver refuses every
  datagram that the sender builds from a payload within the budget.
* The writer's size field counts four-byte units behind the header; the dispatcher's counts two-byte units with the header.
  `Framing.DispatchNeverReadsWriter` shows that they never agree; the inverse of the writer is `Framing.Split`, and the
  convention under which the dispatcher works is `Inbound.ClientSub`.
* The handler reads bytes 28 and 29 of every datagram as an inner header, before it deciphers anything. Once there is a session these bytes
  are ciphertext, so a correctly sent datagram is dropped as malformed, or swallowed as a repeated login, whenever the ciphertext happens to look like that.
  `Inbound.ForwardedExactly` gives the exact condition for being forwarded; `Inbound.CipherDecides` shows that for every text and all but one word of the
  tables there are values of that word for which the datagram is dropped, swallowed, and let through.
* A burst that fails half way is requeued whole, so what is completed was sent at least once (`Protocol.CompletedWasSent`), and exactly once
  unless a batch failed after some of it was sent (`Protocol.ExactlyOnce`). But a packet that fits no datagram is never sent, nothing behind
  it ever is, and what is ahead of it goes back into the queue to be sent again: a queue can be completed if and only if each of its packets fits
  (`Protocol.CompletableExactly`, `Protocol.BlockedForever`).
* A length word of the encoder's table above 0xFFFFFFF8, met where the wrapped sum still leaves room, makes the Go compressor run past its four
  pattern bytes and stop; the C++ reference answers -1. `ZlibReference.CompressorsAgree` shows that this is the only disagreement.
* Sequence numbers grow exactly until the counter wraps, and a client's acknowledgement moves the counter
  (`Protocol.NumbersOverRuns`, `Protocol.WrapByAck`).
* A fallback image is refused by decompression unless the buffer has at most three bytes and the input length is a multiple of
  four (`CodecSpec.FallbackIsRefused`).

## Assumptions

* The digest of the cipher and the datagrams is an arbitrary function to sixteen bytes (`Env.md5`; the program uses MD5, section 3 of RFC 1321), and the constant
  table behind the key schedule is an arbitrary string of 4168 bytes (`Env.subKey`).
* Output buffers hold at most 2^28 bytes, so that eight times their length does not wrap in 32 bits.
* An index out of range is an outcome of the codec (`IndexPanic`), with what was written up to it. The server object assumes a table without
  length words above 0xFFFFFFF8 (`Router.SaneLengths`), because a process that has stopped has no next state.
* The decoder's raw pointer arithmetic stays in its array only if every pointer target has its child slots, and a leaf also its
  value slot, in the table (`CodecSpec.SafeTable`). The loader checks only that the target itself is in the table, so this is a precondition of `Decompress`.
* Table agreement (`CodecSpec.Agrees`: a byte's code leads from the root to a leaf holding that byte) is a precondition where it matters.
* The socket's answers, the clock and the account database are arbitrary functions. One send, one acknowledgement, one incoming datagram is an
  atomic step; the datagram loop calls its handler sequentially (`internal/servers/base/udp/server.go:97-108`).

## Model

| member | source | states |
|---|---|---|
| Codec.SetBitNeverCarries | internal/tools/zlib/helpers.go:27-29 | the `+` of the bit writer is a disjunction: it never carries into another bit |
| Codec.SetBitSetsOneBit | internal/tools/zlib/helpers.go:24-29 | one write sets one bit and leaves the seven others as they were |
| Codec.SetBitInStream | internal/tools/zlib/helpers.go:24-29 | the same for the bit stream of the whole buffer: one position changes |
| Codec.CompressSub | internal/tools/zlib/helpers.go:14-32 | the outcome exactly, wrap-around of the sizes included; on success bits [read, read+elem) are the pattern's and every other bit, and everything before the slice, is unchanged; an error writes nothing; an index out of range leaves the pattern bits before it |
| Codec.CompressedSizeWraps | internal/tools/zlib/helpers.go:10-12 | the fewest bytes that hold the bits, for lengths up to 0xFFFFFFF8; none beyond |
| Codec.BytesToUint32 | internal/tools/zlib/helpers.go:42-53 | refuses exactly the lengths that are not multiples of four, and otherwise reads all little-endian words |
| Codec.WordsAreBytes | internal/tools/zlib/helpers.go:47-50 | the words written back, lowest byte first, are the bytes of the resource |
| Bytes.FieldsAreLittleEndian | internal/tools/zlib/helpers.go:49 | an integer field is worth its bits, lowest byte and lowest bit first |
| Bytes.WrittenFields | internal/servers/map/router/server.go:416 | so is one that was written |
| Codec.FillOverflowOutput | internal/tools/zlib/codec.go:176-214 | the three clamped fills in place leave exactly the three-region image, whatever overlaps |
| CodecSpec.FallbackRegions | internal/tools/zlib/codec.go:181-213 | every byte of the fallback image as a number, by its position |
| Codec.RootIsEntryOne | internal/tools/zlib/codec.go:264-287 | whatever the first word is, the root pointer is entry one, wrap-around of the base included |
| Codec.EntryMeaning | internal/tools/zlib/codec.go:267-279 | a word up to 255 is that value; any other is a pointer to the entry four bytes per entry away from the first word's |
| Codec.FFXICodec.PopulateJumpTable | internal/tools/zlib/codec.go:259-289 | each error exactly when it is due; otherwise the whole table, root at one |
| Codec.FFXICodec.constructor | internal/tools/zlib/codec.go:216-242 | loading succeeds exactly for two readable resources of whole words with a root and every pointer in range |
| Codec.FFXICodec.Compress | internal/tools/zlib/codec.go:55-100 | count, outcome and the complete buffer equal the specification for every input, every table and every prior buffer content |
| Codec.FFXICodec.Follow | internal/tools/zlib/codec.go:143-167 | one bit of the pointer walk is one bit of the tree walk, and the node it ends on has its slots in the table |
| Codec.FFXICodec.Expand | internal/tools/zlib/codec.go:128-173 | the loop equals the recursive walk; bytes behind the output are untouched, also on an error |
| Codec.FFXICodec.Decompress | internal/tools/zlib/codec.go:103-174 | count, error and buffer equal the recursive decoder for every input, bit count and destination |
| Codec.RoundTripThroughBuffers | internal/tools/zlib/codec.go:55-174 | compress then decompress over buffers holding anything gives the text back and touches nothing behind it |
| CodecSpec.CodeStringConcat | internal/tools/zlib/codec.go:71-96 | the code of a concatenation is the concatenation of the codes |
| CodecSpec.ScanIsWithin | internal/tools/zlib/codec.go:77-95 | the wrapping bit counter counts exactly the code bits, and they never exceed the buffer: the writer's own overflow error cannot arise |
| CodecSpec.ScanByArithmetic | internal/tools/zlib/codec.go:77-95 | with valid lengths the encoder's pass ends normally exactly when the total fits |
| CodecSpec.CompressOutcome | internal/tools/zlib/codec.go:68-99 | with lengths of at most 32: normal path iff the input is empty or total bits < 8(len(dst)-1); else fallback iff len(src)+1 >= len(dst); else an error naming the space |
| CodecSpec.CompressStops | internal/tools/zlib/codec.go:71-93 | for any table, what becomes of the first byte whose code is not written: no entry, no room (fallback or error), too long, in this order, and what has been written |
| CodecSpec.RouterBufferSuffices | internal/servers/map/router/server.go:407-411 | with 2n+64 bytes the fallback is unreachable, and codes of at most 16 bits always fit |
| CodecSpec.NormalImage | internal/tools/zlib/codec.go:71-99 | the normal path leaves a one, the concatenated codes, and the old bits behind them |
| CodecSpec.FallbackIsRefused | internal/tools/zlib/codec.go:120-122 | the first byte of a fallback image, and exactly when decompression refuses it for its header |
| CodecSpec.DecompressRefuses | internal/tools/zlib/codec.go:112-133 | each refusal before the walk exactly when it is due, and none of them from the walk |
| CodecSpec.MoveByEntries | internal/tools/zlib/codec.go:143-167 | one bit of the walk in terms of the table's entries: a node without either child is a leaf, its value three entries on |
| CodecSpec.ReachesPrefix | internal/tools/zlib/codec.go:137-171 | two paths to values in the table, one a prefix of the other, are the same path to the same byte |
| CodecSpec.AgreementMakesPrefixCode | internal/tools/zlib/codec.go:259-289 | table agreement alone makes the encoder a prefix code without empty codes |
| CodecSpec.CodeStringsPrefix | internal/tools/zlib/codec.go:71-96 | a code string is a prefix of another only if its text is a prefix of the other text |
| CodecSpec.CompressInjective | internal/tools/zlib/codec.go:55-100 | equal trimmed outputs with equal counts come from equal inputs of any length, whatever the buffers held |
| CodecSpec.DecodeOneCode | internal/tools/zlib/codec.go:137-171 | the walk over a code emits its byte and returns to the root with the rest of the bits |
| CodecSpec.DecodeCodeString | internal/tools/zlib/codec.go:137-171 | the walk inverts the encoder on any bits that follow, up to the room there is |
| CodecSpec.DecodeTruncated | internal/tools/zlib/codec.go:137-171 | cutting a code string anywhere yields exactly the symbols whose codes are complete, without error |
| CodecSpec.RoundTrip | internal/tools/zlib/codec.go:55-174 | count minus eight gives the source (as far as there is room); any smaller positive count gives the longest prefix of it whose code fits that count |
| CodecSpec.DecodeIsSound | internal/tools/zlib/codec.go:137-171 | conversely, what the walk emits without error has a code string that begins the bits read |
| CodecSpec.CountAsReturned | internal/tools/zlib/codec.go:98-141 | the exact result of decompressing with the count as returned, in terms of the padding bits |
| CodecSpec.CountAsReturnedBoundary | internal/tools/zlib/codec.go:98-141 | it gives the source at exact room, and always fails with eight bytes to spare |
| Codec.TwoSymbolsAgree | internal/tools/zlib/codec_test.go:228-253 | the two-symbol tables of the codec's test load, are safe to walk and agree, so the preconditions of the theorems can be met |
| Alphabet.PlainTablesAgree | internal/tools/zlib/codec.go:71-96 | tables on which all bytes agree exist: a code of eight bits for each byte and the complete tree of depth eight, safe to walk |
| ZlibReference.SetBitIsGoSetBit | tools/zlibref/main.cpp:35-40 | the reference's 32-bit mask and truncation write the same byte |
| ZlibReference.CompressSub | tools/zlibref/main.cpp:25-43 | the reference's bit writer for every length word: its failures and the bits it writes |
| ZlibReference.StampOver | tools/zlibref/main.cpp:84-96 | its fallback leaves the same three-region image |
| ZlibReference.Compress | tools/zlibref/main.cpp:63-105 | the reference's verdict, count and bytes for every table of at least 512 words: the codec's, but for wrapping lengths, which it refuses |
| ZlibReference.CompressorsAgree | tools/zlibref/main.cpp:63-105 | run on equal buffers, the Go and the C++ compressor end with the same verdict, count and bytes, except exactly where the Go one breaks off; there the reference fails, with the codes so far written |
| ZlibReference.ValidLengthsNeverBreak | internal/tools/zlib/helpers.go:15-17 | with length words below 0xFFFFFFF9 the Go compressor never breaks off, so the two always agree |
| CipherSpec.TtExactly | internal/tools/blowfish/blowfish.go:245-247 | the round function by the bytes of its argument: two table words whole, and 32 or 33 by the lowest bit of two others |
| CipherSpec.TtReadsFour | internal/tools/blowfish/blowfish.go:245-247 | no other entry of S matters, and of two of the four only the lowest bit |
| CipherSpec.TtAdds | internal/tools/blowfish/blowfish.go:245-247 | what is added to either of the two whole words is added to the result |
| CipherSpec.TtOfZeros | internal/tools/blowfish/blowfish.go:245-247 | 64 on the zero table |
| CipherSpec.AddFourIsAddition | internal/tools/blowfish/blowfish.go:246 | the four summands are added modulo 2^32 |
| CipherSpec.EncipherIsSixteenRounds | internal/tools/blowfish/blowfish.go:221-231 | enciphering against its usual drawing: sixteen rounds, halves exchanged back, the last two words of P |
| CipherSpec.BlockOfWords | internal/tools/blowfish/blowfish.go:181-185 | a block is two words, left half first, and so is its ciphertext |
| CipherSpec.PutWordIsLittleEndian | internal/tools/blowfish/blowfish.go:184-185 | a word is written lowest byte first |
| CipherSpec.Retrace | internal/tools/blowfish/blowfish.go:221-243 | the backward rounds retrace the forward rounds from any round on |
| CipherSpec.DecipherEncipher | internal/tools/blowfish/blowfish.go:221-243 | deciphering undoes enciphering for all tables and blocks |
| CipherSpec.DecipherIsEncipherReversed | internal/tools/blowfish/blowfish.go:233-243 | deciphering is enciphering with the round keys reversed |
| CipherSpec.EncipherDecipher | internal/tools/blowfish/blowfish.go:221-243 | enciphering undoes deciphering |
| CipherSpec.EcbInverse | internal/tools/blowfish/blowfish.go:179-197 | the block loops are mutually inverse on byte strings of every length |
| CipherSpec.EcbBlocks | internal/tools/blowfish/blowfish.go:179-197 | each whole block is transformed, in its place and by itself |
| CipherSpec.PacketInverse | internal/tools/blowfish/blowfish.go:199-219 | decrypting a packet undoes encrypting it, and the reverse, for every length and header size |
| CipherSpec.PacketFrame | internal/tools/blowfish/blowfish.go:199-219 | the header and the last (body length mod 8) bytes never change |
| CipherSpec.PacketBlocks | internal/tools/blowfish/blowfish.go:199-219 | every whole block behind the header is transformed, each in its place and by itself |
| CipherSpec.PacketAtWill | internal/tools/blowfish/blowfish.go:199-208 | whatever a packet holds, some value of the last word of P gives the first word behind the header any ciphertext |
| CipherSpec.StrippedPads | internal/tools/blowfish/blowfish.go:89-97 | the stripped string has no trailing zero, and zeros padded back restore the bytes |
| CipherSpec.KeyBytesOfKey | internal/tools/blowfish/blowfish.go:55-70 | key bytes read back are the bytes set, cut or zero-padded to twenty |
| CipherSpec.KeyOfKeyBytes | internal/tools/blowfish/blowfish.go:100-106 | setting a key from its own bytes restores all five words |
| CipherSpec.KeyWords | internal/tools/blowfish/blowfish.go:63-69 | the five words are the little-endian words of the first twenty bytes, in order, missing bytes zero |
| CipherSpec.RotatedBytes | internal/tools/blowfish/blowfish.go:174-176 | rotation leaves sixteen key bytes alone and adds two, modulo 2^32, to the number in the last four |
| CipherSpec.KeyOfItsString | internal/tools/blowfish/blowfish.go:72-98 | setting a key from its own string form restores all five words, trailing zeros and all |
| CipherSpec.CutAtZero | internal/tools/blowfish/blowfish.go:120-127 | a digest byte survives exactly if no byte up to it is zero |
| CipherSpec.GatheredBytes | internal/tools/blowfish/blowfish.go:148-156 | the gathered word by its bytes: the last digest byte lowest, each other one above it, wiped to 0xFF by a top bit gathered later |
| CipherSpec.InitialTablesExactly | internal/tools/blowfish/blowfish.go:133-158 | before the schedule runs, S is the constant dump and P differs from it by exactly the gathered words of the digest of the key, cut at its first zero |
| CipherSpec.FillPIsSelfEnciphered | internal/tools/blowfish/blowfish.go:160-165 | every pair of the finished P is the pair before it, enciphered under the finished part of P followed by the unfinished rest |
| CipherSpec.FillSIsSelfEnciphered | internal/tools/blowfish/blowfish.go:167-171 | the same for S under the finished P, starting from the last pair of P |
| CipherSpec.ScheduleIsSelfEnciphered | internal/tools/blowfish/blowfish.go:133-172 | all 9 pairs of P and all 512 of S satisfy these equations, from those initial tables on |
| Cipher.Blowfish.SetKeyBytes | internal/tools/blowfish/blowfish.go:55-70 | the five words of the cut or padded bytes, whatever the key was before |
| Cipher.Blowfish.GetKeyBytes | internal/tools/blowfish/blowfish.go:100-106 | the twenty key bytes |
| Cipher.Blowfish.GetKeyAsString | internal/tools/blowfish/blowfish.go:72-98 | the key bytes without trailing zeros; the early return for a zero key is a case of it |
| Cipher.Blowfish.CutDigest | internal/tools/blowfish/blowfish.go:120-127 | the in-place loops clear exactly what follows the first zero |
| Cipher.Blowfish.GatherWord | internal/tools/blowfish/blowfish.go:148-156 | the running index wraps as the position modulo sixteen; the bytes of the word gathered, sign extension included |
| Cipher.Blowfish.InitializeSubkeys | internal/tools/blowfish/blowfish.go:133-172 | the in-place loops, enciphering with the tables being overwritten, compute the pure schedule, independent of the tables before |
| Cipher.Blowfish.InitBlowfish | internal/tools/blowfish/blowfish.go:112-131 | digest and tables become those of the key, whatever they were |
| Cipher.Blowfish.IncrementKey | internal/tools/blowfish/blowfish.go:174-177 | word four grows by two modulo 2^32, the others stay, and the tables follow |
| Cipher.Blowfish.EncipherBlock | internal/tools/blowfish/blowfish.go:221-231 | the loop with its swaps is the recursive network, and ends where its sixteen rounds lead |
| Cipher.Blowfish.DecipherBlock | internal/tools/blowfish/blowfish.go:233-243 | the block that enciphering takes to this one |
| Cipher.Blowfish.EncryptECB | internal/tools/blowfish/blowfish.go:179-187 | in place, every whole block of the slice and nothing else |
| Cipher.Blowfish.DecryptECB | internal/tools/blowfish/blowfish.go:189-197 | in place, every whole block of the slice and nothing else |
| Cipher.Blowfish.EncryptPacket | internal/tools/blowfish/blowfish.go:199-208 | the whole packet afterwards, for every length and header size |
| Cipher.Blowfish.DecryptPacket | internal/tools/blowfish/blowfish.go:210-219 | the same for decryption |
| Packing.FitCountIsLargest | internal/servers/map/router/server.go:353-368 | a prefix fits the budget exactly when it is no longer than the one taken |
| Packing.GreedyDivides | internal/servers/map/router/server.go:319-347 | the packer gets through a queue exactly when every packet fits on its own |
| Packing.GreedyStaysAhead | internal/servers/map/router/server.go:319-371 | starting later in the queue never needs more segments |
| Packing.GreedyIsOptimal | internal/servers/map/router/server.go:319-371 | no division into consecutive segments of at most 1300 bytes has fewer of them |
| Packing.NeighboursExceed | internal/servers/map/router/server.go:356-361 | any two consecutive payloads together exceed 1300 bytes |
| Framing.HeaderFields | internal/packets/map/header.go:12-18 | nine bits of type and seven of size come back from the header word; which types survive |
| Framing.HeaderBytes | internal/packets/map/header.go:12-18 | the two bytes of the header word, written and read: eight bits of type, then its ninth below the size |
| Framing.PayloadLength | internal/servers/map/router/server.go:394-398 | a payload is as long as the aligned lengths say |
| Framing.SubPacketFields | internal/servers/map/router/server.go:373-392 | what any written sub-packet shows a reader: truncated type, truncated size, sequence, padded data |
| Framing.SplitPayload | internal/servers/map/router/server.go:349-392 | splitting in the writer's convention recovers every packet's type, sequence and padded data, in order, if and only if each type is below 512 and each data at most 508 bytes |
| Framing.SplitExactly | internal/servers/map/router/server.go:373-392 | a sub-packet survives exactly when its type is below 512 and its data at most 508 bytes |
| Framing.DispatchTiles | internal/servers/map/router/server.go:483-513 | the dispatched sub-packets tile a prefix of the data without gap or overlap, each with exactly the bytes behind its header; at most len/4 of them |
| Framing.DispatchNeverReadsWriter | internal/servers/map/router/server.go:483-513 | the dispatcher never reads back what the writer wrote |
| Framing.TakenFits | internal/servers/map/router/server.go:349-371 | the payload taken is within the budget and no longer one is |
| Framing.UnwrapWrap | internal/servers/map/router/server.go:400-468 | a datagram decrypts, passes its digest check and yields the compressed text and count; its 28 bytes in the clear are the two sequence numbers, the clock at 8, and the client's own at 4 and from 12 on |
| Framing.UnwrapExactly | internal/servers/map/router/server.go:438-468 | the receiver accepts exactly what deciphers to 28 bytes of header, a non-empty text, its count and the digest of both; its two length checks exactly |
| Framing.WrapRefuses | internal/servers/map/router/server.go:400-411 | why a payload gets no datagram |
| Framing.WrapSucceeds | internal/servers/map/router/server.go:400-411 | a payload within the budget and with short codes always becomes a datagram |
| Framing.EndToEnd | internal/servers/map/router/server.go:349-436 | packets to datagram to packets: digest, exact payload, and every consumed packet's type, sequence and padded data |
| Framing.RouterRejectsItself | internal/servers/map/router/server.go:467-474 | the receiver refuses every datagram built from a payload within the budget |
| Protocol.ConservedStep | internal/servers/map/router/server.go:295-317 | each step keeps: all arrivals = completed + in flight + queued, in order |
| Protocol.InvariantStep | internal/servers/map/router/server.go:276-347 | each step keeps the whole invariant: conservation, faithful wire, growing numbers until a wrap and their mark after it, count of what was sent in vain |
| Protocol.InvariantOverRuns | internal/servers/map/router/server.go:276-347 | so does every run, whatever the interleaving |
| Protocol.QueueConservation | internal/servers/map/router/server.go:295-317 | over every run from the start: arrivals = completed + in flight + queue; between bursts the queue is exactly the arrivals not yet completed |
| Protocol.ReachIsCovered | internal/servers/map/router/server.go:319-347 | no packet overtakes one that was never sent |
| Protocol.CompletedWasSent | internal/servers/map/router/server.go:319-347 | every completed packet was on the wire at its place in the stream |
| Protocol.OversizedBlocks | internal/servers/map/router/server.go:349-361 | nothing from an oversized packet on has been sent or completed |
| Protocol.BlockedForever | internal/servers/map/router/server.go:276-361 | so it is after every run from the start, however often the queue is flushed |
| Protocol.CompletableExactly | internal/servers/map/router/server.go:276-361 | an idle queue can ever be completed if and only if each of its packets fits a datagram |
| Protocol.ExactlyOnce | internal/servers/map/router/server.go:287-291 | over every run: the wire carried each packet once and in order if and only if no batch failed after one of its datagrams was sent |
| Protocol.NumbersOverRuns | internal/servers/map/router/server.go:168-180 | over every run: each sent number exceeds every number sent or acknowledged before it if and only if sends and acknowledgements, counted without wrapping, stay at or below 65535 |
| Protocol.WrapByAck | internal/servers/map/router/server.go:174-177 | one acknowledgement of 65535 suffices: the next datagram is numbered zero |
| Protocol.NumberExceedsUnlessWrapping | internal/servers/map/router/server.go:322-342 | the next number exceeds the last exactly if the last is not 65535; a failed send consumes none |
| Protocol.FailedBurst | internal/servers/map/router/server.go:287-317 | a failed burst puts a proper prefix on the wire and restores the whole batch ahead of newer packets, whatever arrived or was acknowledged meanwhile |
| Protocol.FinishedBurst | internal/servers/map/router/server.go:276-293 | a finished burst puts the whole batch on the wire, and leaves exactly the newer packets queued |
| Protocol.BatchesAreGreedy | internal/servers/map/router/server.go:319-371 | the datagrams of a batch are the greedy segments; they cover the batch exactly if every packet fits |
| Protocol.FewestDatagrams | internal/servers/map/router/server.go:319-371 | no in-order division of a batch into datagrams within the budget needs fewer |
| Protocol.SendsFollowBatches | internal/servers/map/router/server.go:319-347 | n sends enter exactly the first n datagrams of the batch into the history, with their numbers and places, and count the number up by n |
| Protocol.BurstOnChannel | internal/servers/map/router/server.go:276-317 | a burst with arrivals during it is a legal run of the state machine; its history, queue, completion and number afterwards |
| Protocol.SentNumbersGrow | internal/servers/map/router/server.go:322-342 | the datagrams of a history carry growing numbers as long as the history does |
| Protocol.FlushingNext | internal/servers/map/router/server.go:279-292 | a good round of a flush adds its batch to what is done, its datagrams to what is sent and its arrivals to what was heard, and nothing is lost between them |
| Protocol.FlushingFails | internal/servers/map/router/server.go:287-290 | a failing round has sent a part of the cut, less than has come in, and at least what is done |
| Wire.WrappedExactly | internal/servers/map/router/server.go:400-411 | a batch gets a datagram if and only if the codec is loaded and takes its payload the normal way |
| Wire.DatagramShowsNumber | internal/servers/map/router/server.go:421-427 | the bytes of a datagram show its number, the clock and the rest of the session's header |
| Wire.DatagramsTo | internal/servers/map/router/server.go:337-343 | a burst puts one entry per batch on the wire for its own address, numbered on, and none for any other |
| Wire.BurstIsLogged | internal/servers/map/router/server.go:319-347 | if the wire for an address logs a history, then after a burst it logs the longer history |
| Wire.ShortCodesGoThrough | internal/servers/map/router/server.go:407-411 | codes of at most 16 bits let every datagram within the budget through |
| Router.Session.NewSession | internal/servers/map/router/session.go:32-62 | a session if and only if the key has 20 bytes and the bus lets it subscribe; it starts with zero numbers and header, the tables of its key and no previous cipher |
| Router.Session.IncrementBlowfish | internal/servers/map/router/session.go:102-119 | a new cipher for the next key; the old object, untouched, becomes the previous one |
| Router.Session.Rotate | internal/servers/map/router/session.go:102-119 | after n rotations: word four is up by 2n, the tables are those of a fresh cipher on that key, and the previous cipher deciphers what it enciphered |
| Router.MapRouterServer.ProcessNATSSendRequest | internal/servers/map/router/session.go:74-100 | appends to the queue of the packet's own address and changes no other; keeps the server's invariant |
| Router.MapRouterServer.DequeuePackets | internal/servers/map/router/server.go:295-304 | takes the whole queue and leaves it empty, and the rest of the map alone |
| Router.MapRouterServer.RequeuePackets | internal/servers/map/router/server.go:306-317 | puts the packets ahead of what has arrived since |
| Router.MapRouterServer.WriteSubPacket | internal/servers/map/router/server.go:373-392 | appends exactly the sub-packet's bytes |
| Router.MapRouterServer.BuildPayload | internal/servers/map/router/server.go:349-371 | consumes the largest prefix that fits; an error exactly when the first packet fits no payload |
| Router.MapRouterServer.BuildNetworkPacket | internal/servers/map/router/server.go:400-436 | the complete datagram or the error, for every payload, codec state and session; and its header field by field |
| Router.MapRouterServer.SendPacketBurst | internal/servers/map/router/server.go:319-347 | the wire grows by the datagrams of a prefix of the cut, numbered on from the last number, a proper prefix of the packets on any error; it succeeds if and only if every packet fits and each of its own datagrams gets through the codec and its own write |
| Router.MapRouterServer.FlushRound | internal/servers/map/router/server.go:279-291 | one round of the flush with arrivals during it, as a run of the channel; a failed batch is back in front of what arrived; the wire keeps logging the history |
| Router.MapRouterServer.FlushSessionQueue | internal/servers/map/router/server.go:276-293 | for arrivals during any rounds: ends with an empty queue and everything sent once in order, or with the failed batch back in front and less sent; nothing lost; success if and only if every packet of every round fits and every datagram gets through; other queues untouched |
| Router.MapRouterServer.WireAfterBurst | internal/servers/map/router/server.go:319-347 | a burst keeps the invariant that the wire entries for each address are the encodings, one for one, of the datagrams in its history |
| Router.MapRouterServer.CompletedIsOnWire | internal/servers/map/router/server.go:319-347 | each completed packet of an address is in a datagram whose encoding is on the wire for that address |
| Router.MapRouterServer.WireNumbersGrow | internal/servers/map/router/server.go:322-342 | until the count wraps, the numbers shown by the bytes on the wire for an address grow |
| Router.MapRouterServer.ForwardPacketToInstance | internal/servers/map/router/server.go:211-230 | publishes one packet: address, character, type, size, sequence and data |
| Router.MapRouterServer.DispatchSubPackets | internal/servers/map/router/server.go:483-513 | publishes exactly the dispatched pieces, in order and field by field, and returns their number |
| Router.MapRouterServer.OpenPacket | internal/servers/map/router/server.go:443-468 | decryption, the size check, the digest check and the split into text and count |
| Router.MapRouterServer.ProcessEncryptedPacket | internal/servers/map/router/server.go:438-481 | what is noted in the session and what is forwarded, for every byte string; it succeeds if and only if there is a text; a failure on the way forwards nothing |
| Router.MapRouterServer.UpdateServerAckFromClient | internal/servers/map/router/server.go:168-180 | the number becomes the larger of the two |
| Router.MapRouterServer.SessionCreated | internal/servers/map/router/server.go:182-209 | files a session if and only if account, key length and subscription allow one |
| Router.MapRouterServer.HandleKnown | internal/servers/map/router/server.go:143-153 | a datagram for an existing session: numbers, header, forwards |
| Router.MapRouterServer.Welcome | internal/servers/map/router/server.go:130-140 | what a login does once its session is filed: noted, and forwarded as it is |
| Router.MapRouterServer.HandleLogin | internal/servers/map/router/server.go:114-141 | a datagram for no session: the session and the forwarded login, or nothing at all |
| Router.MapRouterServer.HandleIncomingPacket | internal/servers/map/router/server.go:57-154 | the handler is one step of the gate on the whole session table, and at most one acknowledgement on one channel; keeps the server's invariant |
| Delivery.DatagramIsRead | internal/servers/map/router/server.go:349-436 | a client reads one datagram as the packets of its batch under the datagram's number |
| Delivery.QueueIsDelivered | internal/servers/map/router/server.go:276-436 | of the first k datagrams of a queue a client reads a prefix of the queue in order, of all of them the whole queue |
| Delivery.FlushThenRead | internal/servers/map/router/server.go:276-436 | flush and read, with arrivals during it: what the client reads of the new datagrams is everything queued or come in if the flush succeeded, else less than that but at least what left the queue |
| Gate.ParseLoginExactly | internal/packets/map/client/0x000A_login.go:136-176 | a datagram is parsed as a login for character n if and only if it has the type 0x0A, 23 units, the digest of its 92 bytes, the byte sum from byte 8 on at byte 4, and n at bytes 12 to 16 |
| Gate.LoginRoundTrip | internal/packets/map/client/0x000A_login.go:103-176 | a login datagram built from its fields is parsed to the character it was built for |
| Gate.ByteSumIsTotal | internal/packets/map/client/0x000A_login.go:109-116 | the checksum is the sum of the bytes modulo 256 |
| Gate.InnerHeaderBytes | internal/servers/map/router/server.go:80-104 | which bytes say whether there is an inner packet, and whether it is a login |
| Gate.ForwardAllCarries | internal/servers/map/router/server.go:211-229 | forwards carry their pieces field by field, in order |
| Gate.CreatesExactly | internal/servers/map/router/server.go:108-209 | from an address without a session a datagram changes anything if and only if it is a login whose character has a 20-byte key and a subscription; then the session and the forwarded 92 bytes are exactly these |
| Gate.NotesExactly | internal/servers/map/router/server.go:143-145 | what a datagram changes in an existing session: number, acknowledgement, header, nothing else |
| Gate.HandleShape | internal/servers/map/router/server.go:106-153 | a step touches at most one session and forwards only for its address and in its character's name; a new session comes from an admitted login, which is all that is forwarded |
| Gate.GateStep | internal/servers/map/router/server.go:106-153 | each datagram keeps the gate's invariant and replaces no session |
| Gate.GateOverRuns | internal/servers/map/router/server.go:106-153 | over every run: the first packet forwarded for an address is the very login that created its session, the session is never replaced, all forwards carry one character |
| Gate.SessionsComeFromLogins | internal/servers/map/router/server.go:108-140 | a session that a run adds was created by an admitted login of that run, has its character and tables, and the next packet forwarded for the address is that login |
| Gate.GateFromEmpty | internal/servers/map/router/server.go:106-153 | from the empty table: an address with a session had the login that created it forwarded first and everything in its character's name; one without had nothing forwarded |
| Inbound.DispatchReadsClient | internal/servers/map/router/server.go:483-513 | the dispatcher recovers a list of sub-packets written in its own convention, wherever it starts, if and only if each has a type below 512 and an even number of at most 250 bytes |
| Inbound.FirstDispatched | internal/servers/map/router/server.go:486-511 | what the dispatcher finds at an offset, by the fields it reads there |
| Inbound.ReceiveFromClient | internal/servers/map/router/server.go:438-474 | a datagram that declares data bits only is read back exactly, up to 4096 bytes |
| Inbound.ForwardedAsMeant | internal/servers/map/router/server.go:438-513 | behind the handler's checks: exactly the client's sub-packets are forwarded, in order, in the session's name |
| Inbound.ClientsCanSend | internal/servers/map/router/server.go:438-513 | on those tables every dispatchable list of sub-packets up to 4096 bytes has a datagram of the kind the next theorems speak of |
| Inbound.ForwardedExactly | internal/servers/map/router/server.go:57-153 | from the handler on: a client's sub-packets are forwarded, one for one with address, character, type, sequence, data and size, if and only if its ciphertext, read as an inner header, has a fitting non-zero size and not the login type; else nothing is |
| Inbound.CipherDecides | internal/servers/map/router/server.go:80-149 | for every text and all tables but for one word of P, values of that word for which the datagram is dropped, swallowed as a login, and let through |
| Inbound.SomeClientIsFailed | internal/servers/map/router/server.go:80-104 | so for every text there is a session whose datagram the handler drops without forwarding any of it |
| Inbound.HandleClientDatagram | internal/servers/map/router/server.go:57-153 | the same for the server object: what it publishes for a client's datagram, field by field |

## Left out

- Lobby, authentication, view and data servers, the database layer, configuration and the `cmd` programs: request handling around libraries not shown.
- The message bus, its JSON encoding and the UDP socket: success or failure of each call is arbitrary, and an unreadable message is an absent one. A failed publish is only logged by the program, so the model records what was attempted.
- Reading the two table files: the constructor takes their bytes, or their absence. Loading happens once in the constructor instead of on first use, and a nil codec is not modelled.
- Fixed-layout server packets and the rest of the login packet's fields: of a login only the checks and the character number are modelled (`Gate.ParseLogin`).
- `hexPreview`, `HashHex` and all logging.
- Iteration of `flushPendingPackets` over the sessions, and the timer: one flush of one session is modelled.
- Unsynchronised access to a session's fields by the receive and the flush goroutine: steps are atomic, and in `SendPacketBurst` the session's cipher, header and number are not changed by others during one burst. Acknowledgements during a burst are covered by the state machine of `Protocol`.
- Codec.FFXICodec.Compress: the source bytes are a value, so a source overlapping the destination is not captured; neither is one for `Decompress`.
- Codec.FFXICodec.Decompress: the shape of the table (`SafeTable`) is required, because the program's pointer arithmetic has no meaning without it.
- Codec.FFXICodec.Expand: the loop of `Decompress` and the step `Follow` are methods of their own here. So are `PutBit` of the bit writers, `Fill` of the fallback, `CutDigest`, `CopyBase`, `MixHash` and `GatherWord` of the key schedule, `EncryptBlockAt`, `DecryptBlockAt` and `PutBlock` of the ECB loops, `FlushRound`, `BurstOrRequeue` and `ArriveAndSettle` of the flush loop, and `OpenPacket`, `DecryptCopy`, `NoteDatagram`, `HandleKnown`, `HandleLogin` and `Welcome` of the receiver.
- Codec.RoundTripThroughBuffers: this, `ZlibReference.CompressorsAgree`, `Router.Session.Rotate`, `Delivery.FlushThenRead` and `Inbound.HandleClientDatagram` are compositions that the repository does not contain as functions.
- Router.Session.NewSession: the copy of the session key and the time of the last update, which nothing modelled reads, are not fields here; the header mirrored to the client is a sequence of 28 bytes that is replaced whole.
- Router.MapRouterServer.FlushSessionQueue: what arrives during a burst is queued at the end of that burst, which no send can tell from any earlier moment; arrivals at other addresses are separate calls.
- ZlibReference.Compress: an empty output vector, for which the reference writes out of bounds, is excluded, and so are inputs of 2^31 bytes or more.
