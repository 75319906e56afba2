# Verified model of the 5G dynamic compression repository

This project models, in Dafny, the parts of the repository where a mistake would be
hardest to see: the two lock-free queues its threads communicate through, the
compressed sender/receiver session, and the smaller pieces of arithmetic and
bookkeeping beside them. `dafny verify dfyconfig.toml` checks all of it.

**The multi-producer/multi-consumer queue** (`MpmcModel`, `MpmcInvariant`,
`MpmcTheorems`, `MpmcProgress`, `MpmcQueue`). Any number of threads run `emplace`,
`try_emplace`, `pop` and `try_pop` in any interleaving, one atomic access or one storage
access at a time. An access the C++ object model forbids (constructing over a live
object, moving out of or destroying a dead one) sets `fault`. The log of a state records
which thread claimed which ticket and with which value. `MpmcQueue.Queue` is the code
itself, with its loops, on shared fields that other threads may change before each access;
each of its calls is shown to be a run of the transition system. Tickets are unbounded:
that they do not wrap within `size_t` is assumed.

**The single-producer/single-consumer ring** (`SpscModel`, `SpscProofs`, `SpscQueue`,
`SpscMisuse`). Two threads, four indices, two of them caches. A load of the other side's
index may return any value that side has stored since it was last loaded, not only the
newest. The safety theorems cover every run in which each `pop()` is called with
`readIdx_ != writeIdxCache_`; every run in which it follows a non-null `front()` is one of
them, and no weaker guard would do.

**The session** (`Bytes`, `RunLength`, `IqConversion`, `Lz77`, `Channel`, `FileReader`,
`Session`). The file is re-read, turned into IQ samples, compressed with whatever
algorithm the controller picks for each frame, framed, chunked, sent, received, decoded
and written. All codecs are modelled as they are written; only zlib is a parameter,
with its round trip and its `compressBound` as assumptions.

**Smaller parts**: round-robin CPU masks (`Affinity`), block floating point exponent,
sign extension and quantizer (`Bits`, `BlockFloatingPoint`, over exact reals), CLI11's
checked multiplication (`CheckedMultiply`) and its overlay of command line, configuration
files and environment (`ConfigOverlay`).

Where the code does less than one would expect of it, the model follows the code and the
exact condition is proved:

- `SPSCQueue(SIZE_MAX)` wraps its capacity to a ring of no slots; every other request is
  served (`RingSizeLaw`).
- `pop()` is safe exactly if `readIdx_ != writeIdxCache_`, the test `front()` makes: from
  every other state, on every ring, calls that obey the rule of use can follow that access a
  dead slot (`HarmlessExactlyWhenGuarded`).
- `determine_exponent` returns 0 for every value from 2^15 on, which then fits the data
  width only if that is above 16 bits (`ExponentFits`).
- A buffer of 2^32 bytes or more is not received as sent (`PacketRoundTrip`).
- `bfp_compressor` keeps the high byte of each half sample: lossless exactly for samples
  whose low bytes are zero, as all samples of `to_iq` are (`HighBytesLossless`).
- `to_bf16` rounds to nearest exactly below the pattern 0xffff8000; the NaN patterns from there on
  become zero (`Bf16Nearest`, `Bf16Wrapped`).
- `configs/readme.md` promises the value of the last file; within one file it is the first
  item that sets the option (`ItemsOverlay`).
- The last branch of `rle_compressor::compress` is never taken: its output is even.

## Model

| member | source | states |
|---|---|---|
| `MpmcInvariant.RunInv` | external/rigtorp/MPMCQueue.h:163-251 | every state of every run keeps the invariant that ties each slot's turn, lap and storage to the position of the thread holding its ticket |
| `MpmcTheorems.NoFault` | external/rigtorp/MPMCQueue.h:87-101 | in no interleaving is an element constructed over a live one, or moved out of or destroyed when dead |
| `MpmcTheorems.TicketFifo` | external/rigtorp/MPMCQueue.h:163-251 | the consumer with tail ticket t receives exactly the value the producer with head ticket t pushed |
| `MpmcTheorems.RunExtends` | external/rigtorp/MPMCQueue.h:166-241 | a claimed ticket keeps its value, its owner and its delivery for ever: nothing is delivered twice or reassigned |
| `MpmcTheorems.SlotExclusive` | external/rigtorp/MPMCQueue.h:166-171 | at most one thread at a time is between its successful turn check and its turn store on a slot |
| `MpmcTheorems.SlotParity` | external/rigtorp/MPMCQueue.h:80-85 | outside such a section a slot's turn is odd exactly if it holds a live element, and even exactly if its storage is raw |
| `MpmcTheorems.WinnerWindow` | external/rigtorp/MPMCQueue.h:177-185 | whatever the others do, turn and storage of the winner's slot stay put until the winner's own step |
| `MpmcTheorems.PushCasWindow` | external/rigtorp/MPMCQueue.h:177-185 | if the compare-exchange on the head is going to succeed, head and observed turn held at every moment since the check: no ABA |
| `MpmcTheorems.PopCasWindow` | external/rigtorp/MPMCQueue.h:233-241 | the same for the compare-exchange on the tail |
| `MpmcTheorems.PushFailureMeansFull` | external/rigtorp/MPMCQueue.h:186-191 | a failing try_emplace saw, at its turn load, the head at its ticket and the slot not released by the pop one lap before |
| `MpmcTheorems.PopFailureMeansUnpublished` | external/rigtorp/MPMCQueue.h:243-249 | a failing try_pop saw, at its turn load, the tail at its ticket and that ticket not published |
| `MpmcTheorems.RetryBound` | external/rigtorp/MPMCQueue.h:178-193 | repeated iterations of a try-call never exceed the claims made since its first load, all of them by other threads |
| `MpmcTheorems.QuiescentContents` | external/rigtorp/MPMCQueue.h:152-157 | with no call in flight every claimed pop has delivered, at most `capacity` elements remain, each live in its ticket's slot, and all other slots are free |
| `MpmcTheorems.LeftoverTicket` | external/rigtorp/MPMCQueue.h:80-85 | with no call in flight a slot with an odd turn belongs to a ticket pushed and not popped |
| `MpmcTheorems.SoloTryPush` | external/rigtorp/MPMCQueue.h:174-194 | with no other call in flight try_emplace fails exactly if `capacity` elements are queued and otherwise appends |
| `MpmcTheorems.SoloTryPop` | external/rigtorp/MPMCQueue.h:232-251 | with no other call in flight try_pop fails exactly if nothing is queued and otherwise returns the oldest element |
| `MpmcProgress.MoverAdvances` | external/rigtorp/MPMCQueue.h:168-171 | the thread a slot is waiting for is never itself blocked: its next step moves the slot on |
| `MpmcProgress.PushReadyClaimed` | external/rigtorp/MPMCQueue.h:271-273 | below an unpublished push whose freeing pop is claimed the slot always waits for a claimed operation of an earlier or equal ticket: no deadlock |
| `MpmcProgress.PushCompletes` | external/rigtorp/MPMCQueue.h:163-172 | under fair scheduling such a push is published within 7 * lap + 3 rounds, in any interleaving and with any new calls |
| `MpmcProgress.PopCompletes` | external/rigtorp/MPMCQueue.h:222-230 | under fair scheduling a claimed pop of a claimed push delivers its element within 7 * lap + 7 rounds |
| `MpmcProgress.PushNotStarved` | external/rigtorp/MPMCQueue.h:163-172 | the same over an arbitrary run: however it can be cut into fair rounds from the moment the push is ready, the push is published at its end |
| `MpmcProgress.PopNotStarved` | external/rigtorp/MPMCQueue.h:222-230 | the same for a pop: it has delivered at the end |
| `MpmcQueue.Create` | external/rigtorp/MPMCQueue.h:119-150 | a capacity below one is refused; otherwise the queue starts in the initial state |
| `MpmcQueue.Queue.Emplace` | external/rigtorp/MPMCQueue.h:163-172 | with other threads interfering before every access the call is a run of the model; it is done, with its value published under its own ticket, at the latest when the run since its claim holds 7 * lap + 3 fair rounds after the freeing pop was claimed |
| `MpmcQueue.Queue.Pop` | external/rigtorp/MPMCQueue.h:222-230 | likewise; it returns what its ticket pushed, at the latest after 7 * lap + 7 fair rounds once that push is claimed |
| `MpmcQueue.Queue.TryEmplace` | external/rigtorp/MPMCQueue.h:174-194 | the loop ends because each repetition raises the ticket; true with the value published, false only if the queue was full at a moment inside the call |
| `MpmcQueue.Queue.TryPop` | external/rigtorp/MPMCQueue.h:232-251 | the same for popping; failure only if the next element was unpublished at a moment inside the call |
| `MpmcQueue.Queue.Destruct` | external/rigtorp/MPMCQueue.h:80-157 | exactly the slots that hold an element are destroyed, and they are exactly the slots of the tickets pushed and not popped |
| `SpscProofs.RunInv` | external/rigtorp/SPSCQueue.h:104-190 | every run whose pops are guarded keeps the caches conservative and every slot of the ring as the counts say, whichever stale index each load returns |
| `SpscProofs.SafeRun` | external/rigtorp/SPSCQueue.h:105-190 | in every such run: no write to an unread slot, no read of an unwritten one; delivered is a prefix of pushed; at most capacity() outstanding |
| `SpscProofs.StepRefines` | external/rigtorp/SPSCQueue.h:117-189 | the ring refines a sequence: only the store of writeIdx_ appends, only the store of readIdx_ removes, and always the oldest |
| `SpscProofs.RefusedExactlyWhenFull` | external/rigtorp/SPSCQueue.h:126-139 | try_emplace is refused, and emplace keeps waiting, exactly if capacity() elements were outstanding at the reload |
| `SpscProofs.NullExactlyWhenEmpty` | external/rigtorp/SPSCQueue.h:168-177 | front is null exactly if the queue was empty at the reload |
| `SpscProofs.PopAssertion` | external/rigtorp/SPSCQueue.h:182-184 | the assertion inside pop holds whenever the guard does |
| `SpscProofs.PopInv` | external/rigtorp/SPSCQueue.h:179-190 | pop() keeps the invariant exactly if readIdx_ differs from writeIdxCache_, that is, exactly if the consumer has seen the push of what it pops |
| `SpscProofs.AnnouncedDisciplined` | external/rigtorp/SPSCQueue.h:168-190 | a run in which every pop() follows a non-null front() has every pop() guarded |
| `SpscMisuse.UnguardedPopFaults` | external/rigtorp/SPSCQueue.h:168-190 | after an unguarded pop() in any reachable state some calls that obey the rule of use access a dead slot |
| `SpscMisuse.HarmlessExactlyWhenGuarded` | external/rigtorp/SPSCQueue.h:168-190 | a pop() is harmless, whatever follows it by the rule of use, if and only if readIdx_ differs from writeIdxCache_ when it is called |
| `SpscMisuse.PopWithoutFront` | external/rigtorp/SPSCQueue.h:168-190 | on a ring of any size, after any pushes, a first pop() without front() lets calls that obey the rule of use access a dead slot |
| `SpscProofs.SizeIsCount` | external/rigtorp/SPSCQueue.h:192-199 | the corrected index difference is the element count, also across wrap-around |
| `SpscQueue.RingSizeLaw` | external/rigtorp/SPSCQueue.h:58-69 | the ring has its slack slot for every requested capacity but SIZE_MAX, where it has no slot |
| `SpscQueue.Create` | external/rigtorp/SPSCQueue.h:58-90 | a queue of every requested capacity starts as the empty ring of that size; only SIZE_MAX gives a ring without slots |
| `SpscQueue.Queue.TryEmplace` | external/rigtorp/SPSCQueue.h:121-140 | with the consumer interfering: true with the element appended, or false with exactly capacity() outstanding at the load |
| `SpscQueue.Queue.Emplace` | external/rigtorp/SPSCQueue.h:104-119 | with the consumer interfering: the element is appended, or the call still waits with nothing pushed, having found exactly capacity() outstanding at its last load |
| `SpscQueue.Queue.Front` | external/rigtorp/SPSCQueue.h:168-177 | with the producer interfering: null only if empty at the load, else the slot of the oldest element |
| `SpscQueue.Queue.Pop` | external/rigtorp/SPSCQueue.h:179-190 | with the producer interfering: a guarded pop destroys and takes exactly the oldest element |
| `SpscQueue.Queue.SizeByProducer` | external/rigtorp/SPSCQueue.h:192-199 | from the producer: the true count, within 0..capacity(), at the load of readIdx_ |
| `SpscQueue.Queue.SizeByConsumer` | external/rigtorp/SPSCQueue.h:192-199 | from the consumer: the true count, within 0..capacity(), at the load of writeIdx_ |
| `SpscQueue.Queue.Destruct` | external/rigtorp/SPSCQueue.h:92-98 | the drain destroys exactly the elements left, in order, and leaves every slot raw |
| `Bytes.BigEndianRoundTrip` | include/d_compression/channel.h:37-60 | the length prefix survives htonl and ntohl |
| `Bytes.ByteOrder` | include/d_compression/channel.h:38-60 | for every length byte i of the prefix has weight 256^(3 - i), the most significant first, and the prefix is the host order read backwards |
| `Bytes.LittleEndianAt` | lib/d_compression/iq.cpp:50-53 | byte i of a number in host order is the one of weight 256^i, for every number and width |
| `RunLength.Compress` | lib/d_compression/rle.cpp:6-31 | the output expands to the input, in runs that are as long as they can be |
| `RunLength.Decompress` | lib/d_compression/rle.cpp:33-46 | the output is what the runs stand for |
| `RunLength.ExpandRun` | lib/d_compression/rle.cpp:33-46 | run k repeats byte 2k of the code as often as byte 2k + 1 says, right behind the runs before it; nothing else is in the output |
| `RunLength.MaximalUnique` | lib/d_compression/rle.cpp:14-25 | the compressed form is unique: maximal runs of the same bytes are equal |
| `IqConversion.ToIq` | lib/d_compression/iq.cpp:7-32 | byte i becomes the high byte of the real (even i) or imaginary (odd i) part of sample i / 2, with a zero low byte; an odd buffer is padded with a zero part, counted as blank |
| `IqConversion.FromIq` | lib/d_compression/iq.cpp:34-43 | byte i is the high byte of the real or imaginary part of sample i / 2; the blanks are left off the end |
| `IqConversion.IqRoundTrip` | lib/d_compression/iq.cpp:7-43 | from_iq of to_iq gives every buffer back, of odd or even length |
| `IqConversion.Serialize` | lib/d_compression/iq.cpp:45-55 | at byte 8i stands the binary32 pattern re * 2^16 of sample i, at 8i + 4 the pattern im * 2^16, each with its lowest byte first |
| `IqConversion.Deserialize` | lib/d_compression/iq.cpp:58-73 | sample i is the rounding to bfloat16 of the two binary32 patterns at bytes 8i and 8i + 4 |
| `IqConversion.Bf16RoundTrip` | include/srsran/adt/bf16.h:39-82 | rounding a widened bfloat16 gives it back, for all patterns |
| `IqConversion.Bf16Nearest` | include/srsran/adt/bf16.h:39-57 | to_bf16 rounds to nearest, ties to even, exactly for patterns below 0xffff8000 |
| `IqConversion.Bf16Wrapped` | include/srsran/adt/bf16.h:50-53 | from 0xffff8000 on, all of them NaN patterns, the sum wraps and the result is zero |
| `IqConversion.SerializeRoundTrip` | lib/d_compression/iq.cpp:45-73 | deserialize of serialize gives back every list of samples |
| `IqConversion.BfpCompress` | lib/d_compression/bfp.cpp:11-45 | block by block, the high bytes of all samples, none left out or repeated |
| `IqConversion.BfpDecompress` | lib/d_compression/bfp.cpp:47-60 | pairs of bytes as high bytes of samples; an odd last byte is dropped |
| `IqConversion.HighBytesLossless` | lib/d_compression/bfp.cpp:22-60 | the coding loses nothing exactly for samples whose low bytes are zero |
| `Lz77.RoundTrip` | lib/d_compression/lz77.cpp:8-52 | with a correct zlib, decompress of compress gives every buffer back |
| `Lz77.CompressLaw` | lib/d_compression/lz77.cpp:8-28 | eight bytes of length, byte i of weight 256^i, then the zlib output; nothing for an empty buffer |
| `Lz77.DecompressLaw` | lib/d_compression/lz77.cpp:30-52 | zlib gets what follows the length, with that much room; a failure or a buffer shorter than the length gives nothing |
| `Channel.Channel.Send` | include/d_compression/channel.h:36-53 | the chunks put exactly prefix and buffer on the wire |
| `Channel.Channel.Recv` | include/d_compression/channel.h:55-73 | the chunks take exactly one buffer off the wire, or fail exactly if it is incomplete |
| `Channel.PacketRoundTrip` | include/d_compression/channel.h:36-73 | a buffer is received as sent, with the rest of the stream untouched, exactly if it is shorter than 2^32 |
| `Channel.UnpackInverse` | include/d_compression/channel.h:36-73 | whatever is received is a packet at the front of the stream, with the rest behind it |
| `FileReader.BufferReader.ReadBuffer` | sender/main.cpp:29-52 | the buffers cut `count` copies of the file, in the order of `Cuts`, and are empty for ever after |
| `FileReader.CutsAt` | sender/main.cpp:35-51 | buffer i of a pass holds the bytes from i * max on, max of them unless the file ends before, and the last one ends with the file |
| `Session.ParseWire` | receiver/main.cpp:23-33 | the receiver sees exactly the frames sent, takes none for the terminator, stops at it and leaves what follows |
| `Session.ParseInverse` | receiver/main.cpp:23-33 | every stream is the frames seen in it, then the terminator and the rest, or else something that breaks off or has no header |
| `Session.FrameLayout` | sender/main.cpp:163-169 | a frame on the wire is its size in network order, type byte, blank count and payload |
| `Session.Compose` | sender/main.cpp:115-165 | the frame carries the type byte 0, 1, 2 or 3 of the algorithm, the blank count and exactly the payload of that algorithm, and the receiver writes exactly the buffer for it |
| `Session.Transmit` | sender/main.cpp:113-202 | frame i is made of buffer i with the algorithm the controller is at then; the wire carries these frames, then the terminator; together they stand for all that remained to be read |
| `Session.Decode` | receiver/main.cpp:29-71 | header, dispatch and decoding of one buffer, with the cases in which C++ is undefined or throws |
| `Session.WrittenFrame` | receiver/main.cpp:29-71 | a frame of samples coded by any algorithm is written as their high bytes less the blanks, for every blank count, and cannot be if there are more blanks than bytes |
| `Session.Undecodable` | receiver/main.cpp:41-71 | for any frame at all, exactly when the receiver has nothing to write; an unknown type is written as it is |
| `Session.Receive` | receiver/main.cpp:23-76 | for every stream, malformed ones included, the bytes written are those of the frames decoded; it ends by the terminator exactly if the stream holds one and every frame before it can be decoded, and otherwise stops at the first frame that cannot, or where the stream breaks off |
| `Session.Transfer` | sender/main.cpp:89-204 | end to end, the receiver writes exactly `count` copies of the file |
| `Affinity.RoundRobin.CalculateMask` | apps/services/os_sched_affinity_manager.h:116-134 | call k returns the (k mod n)-th set CPU alone, in at most two passes; an empty mask gives the default, of the size of the host with no CPU set |
| `Affinity.NextPosition` | apps/services/os_sched_affinity_manager.h:125-131 | from the stored position the lowest set CPU is the next in the rotation, and there is none exactly after the last |
| `Affinity.Fair` | apps/services/os_sched_affinity_manager.h:110-137 | in any number of turns of the rotation two set CPUs come up equally often, give or take one |
| `Affinity.RoundRobin.HandedFairly` | apps/services/os_sched_affinity_manager.h:110-137 | however often the method was called, it has handed out two set CPUs equally often, give or take one |
| `BlockFloatingPoint.ExponentLaw` | include/d_compression/bfp.h:22-32 | the exponent in closed form for every value and every width up to 32: zero for zero and for the full width, wrap-around of the zero count included |
| `BlockFloatingPoint.ExponentFits` | include/d_compression/iq_compression_bfp_impl.h:67-81 | the shifted value fits the data width exactly if it was below 2^15 (or the width exceeds 16 bits) |
| `BlockFloatingPoint.ExponentLeast` | include/d_compression/iq_compression_bfp_impl.h:67-81 | at 16 bits no smaller shift fits, for every value below 2^15 |
| `BlockFloatingPoint.SignExtendRoundTrip` | include/d_compression/quantizer.h:126-130 | cutting to the low bits and sign extending gives a number back exactly if it fits |
| `BlockFloatingPoint.SignExtendLaw` | include/d_compression/quantizer.h:126-130 | of any word the result keeps the low bits and fits them |
| `BlockFloatingPoint.SampleRoundTrip` | include/d_compression/iq_compression_bfp_impl.h:67-81 | every sample of a block, an all-zero one included, survives up to less than 2^e, always downwards |
| `BlockFloatingPoint.QuantizedMagnitude` | include/d_compression/quantizer.h:46-53 | quantized values stay within 2^(width - 1) - 1, so fit the width and are below 2^15 |
| `BlockFloatingPoint.QuantizeNearest` | include/d_compression/quantizer.h:46-53 | inside [-1, 1] the nearest integer to the value times 2^(width - 1) - 1, halves away from zero; outside, that gain with the sign of the value |
| `BlockFloatingPoint.FullScale` | include/d_compression/quantizer.h:36-95 | 1.0 becomes 2^(width - 1) - 1, the largest number that fits, which stands for 1.0; every fixed-point value stands for its share of it |
| `BlockFloatingPoint.QuantizeRoundTrip` | include/d_compression/quantizer.h:46-95 | quantizing what a fixed-point value stands for gives the value back |
| `CheckedMultiply.Multiply` | external/CLI/CLI11.hpp:3189-3217 | for every integer type: true exactly if the product is representable, then leaving the product, else leaving the operand |
| `ConfigOverlay.App.ParseConfig` | external/CLI/CLI11.hpp:8196-8281 | the items of a file are applied in order, each only to an empty option of a known section, up to the first error |
| `ConfigOverlay.PlainItem` | external/CLI/CLI11.hpp:8232-8278 | without delimiters an item sets the option that the first of its spellings (long, one-letter, bare) names to its own inputs, or a flag to its flag value, and no other option |
| `ConfigOverlay.GivenItem` | external/CLI/CLI11.hpp:8232-8278 | with delimiters the option gets what the inputs, or the flag value, split into |
| `ConfigOverlay.ItemsOverlay` | external/CLI/CLI11.hpp:8196-8281 | option by option, an already set value stays and otherwise the first item of the file that sets it wins |
| `ConfigOverlay.App.ProcessConfigFile` | external/CLI/CLI11.hpp:7844-7874 | the files are applied from last to first; the call fails exactly if no file is named and one is required, a listed one is missing while required or given, or an item of one is refused; a configuration option that was not given gets the names of the files read |
| `ConfigOverlay.App.ProcessEnv` | external/CLI/CLI11.hpp:7876-7906 | only options still empty take their environment variable |
| `ConfigOverlay.EnvLaw` | external/CLI/CLI11.hpp:7876-7906 | an option with a named, non-empty variable gets what the value of the variable splits into |
| `ConfigOverlay.FilesOverlay` | external/CLI/CLI11.hpp:7855-7864 | option by option, an already set value stays and otherwise the last listed file that sets it wins; the configuration option collects the names of the files instead |
| `ConfigOverlay.FilesRefused` | external/CLI/CLI11.hpp:7855-7870 | a run over the files fails exactly if one is missing while required or given, or holds a refused item: unknown section or option in error mode, an option a file cannot set outside ignore-all mode, or unacceptable values for an option still empty |
| `ConfigOverlay.ItemsRefused` | external/CLI/CLI11.hpp:8196-8281 | the items of one file fail exactly if one of them is refused after the ones before it |
| `ConfigOverlay.App.Process` | external/CLI/CLI11.hpp:8082-8102 | a run fails exactly as above; otherwise each option has its command line, else the last file, else the environment, else nothing; for the configuration option the names of the files read stand in for the last file |

## Left out

- MpmcQueue.Queue.Emplace: the spin is observed for a given number of turn loads, any number; with no fair rounds, or no pop to free the slot, it may still be waiting then.
- MpmcQueue.Queue.Pop: likewise.
- MpmcQueue.Queue.TryEmplace: the other threads' claims during one call stay below a bound, any number, without which the loop need not end.
- MpmcQueue.Queue.TryPop: likewise.
- SpscQueue.Queue.Emplace: the spin is observed for a given number of loads, any number; it may still be waiting then if the consumer makes no room.
- SpscQueue.Queue.Pop: an unguarded call is not run by the class; `UnguardedPopFaults` says what it leads to.
- Session.Transfer: the sender finishes before the receiver starts; a receiver that waits for bytes still to come reads the same stream.
- Memory orders weaker than the loads described above, cache-line padding, allocators and alignment of both queues, and the wrap-around of 64-bit tickets.
- `size()` and `empty()` of the multi-producer queue, which the code calls best-effort guesses.
- Sockets, file streams other than end of file, timing, CSV output and the controller's choice of algorithm (any choice is covered).
- zlib itself, and a failing zlib call on the sending side.
- Float conversions that would quieten a signalling NaN; the model moves bit patterns, as `memcpy` does.
- `bounded_bitset` beyond `find_lowest`, the manager that owns the affinity entries, and the mask policy, which returns its mask.
- PRB packing of the O-RAN compressor, the span overloads of the quantizer and float rounding.
- CLI11 beyond the overlay: matching of names and sections, splitting, validation and callbacks are parameters; forced callbacks, captured extras and the section marks' callbacks are not modelled; subcommands share the extras mode of the application, which has a configuration option, not configurable itself, as `set_config` makes it.
- The DQN trainer, the gNB applications, and everything else of the srsRAN tree.
