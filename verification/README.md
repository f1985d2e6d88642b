# Dafny model of the device SDK's core libraries

This project models the parts of a C SDK for hardware-wallet applications whose correctness is
hardest to see from the code, and proves what they are for. It has no entry point and runs
nothing: `dafny verify dfyconfig.toml` checks all of it.

| file | what it models |
|---|---|
| `Basics.dfy` | machine integers and small sequence operations |
| `SegIndex.dfy` | the size classes of the segregated-fit heap |
| `HeapChunks.dfy`, `FreeLists.dfy`, `HeapImage.dfy` | chunks that tile the heap, the partition of the free chunks into lists, and how a memory image stands for both |
| `HeapAllocator.dfy` | the allocator working in place on its buffer |
| `HeapTraces.dfy`, `HeapRuns.dfy` | what each call does as a step of a state machine and what holds of every run; the allocator makes such runs |
| `Radix.dfy`, `Base58.dfy` | positional numerals; the early-exit encoder and the long-division decoder |
| `Tlv.dfy`, `TlvMeaning.dfy` | the three-step TLV engine, its reception flags and the serializer of the install script; which callbacks answered what |
| `Utf8.dfy`, `Utf8Encoding.dfy` | truncation at characters; the encoding of code points that it is about |
| `Printf.dfy`, `PrintfReading.dfy` | number conversion through the 32-byte buffer, `snprintf`; what a reader makes of the text |
| `Exceptions.dfy` | the TRY / CATCH / FINALLY macros over `setjmp` contexts |
| `Orderings.dfy`, `Lists.dfy` | sequence operations, and the linked lists that perform them by relinking nodes |
| `AppStorage.dfy`, `AppStorageRuns.dfy` | the persistent storage with power cuts between writes |
| `Bip32.dfy` | the printer, the parser and the binary reader of derivation paths |

Modelling choices:

- The heap is the 32-bit layout: its header takes 88 bytes, a chunk is a number of 8-byte units,
  and index 0 is null. The buffer is an array of 16-bit half-words, four to a unit: size and
  allocated bit, back-link, then the two list links of a free chunk or the payload. The list
  heads and the number of segments are fields beside the buffer.
- In the heap, `EXCEPTION_CORRUPT`, the "too small" return and the early returns of the list push
  are branches that hold `assert false`: the proofs show that valid calls never reach them.
- TLV reception flags are sets of bit positions. Handlers are arbitrary functions of the item,
  the flags and the output state, each of which may fail.
- Printed formats are sequences of pieces: literal text and number conversions. Products in the
  search for the leading digit wrap around at the word size.
- Loops in a program with TRY blocks, and blocks that are run again, are given a number of rounds;
  a program that ends does so in the same way for every larger number (`Exceptions.EvalMore`).
- A list comparator or predicate is a function of the nodes. The deletion callback may leave any
  value in the links of the node it is given, so no operation may look at a node it gave up.
- In the storage the CRC is an arbitrary function of the header and of the first `header.size`
  bytes of data. Every `nvm_write` is atomic; an operation is given the number of writes that
  power lasts for.

Where the code does not do what its documentation says:

- `f_list_node_cmp` is documented as "true if a < b". With such a comparator the sort of a list
  that holds two equal nodes never ends (`Orderings.TerminatesIffComparable`,
  `Orderings.StrictComparisonNeverEnds`). The documented complexity is that of a merge sort; the
  code is a bubble sort.
- `bip32_path_format` can answer true with its text cut off: the check on the length written
  cannot fire, because `strlen` is always below the room. `Bip32.NeverCutSilently` says exactly for
  which paths this cannot happen.
- `base58_decode` refuses texts of one character, so an encoding of a single character is not
  decoded (`Base58.SingleCharacterRefused`); `Base58.DecodeEncode` has the exact condition.
- `base58_decode` gives up to 164 bytes, more than the 120 that `base58_encode` takes, so a long
  text need not come back (`Base58.LongTextRefused`; exact condition in `Base58.EncodeDecode`).
- A THROW of a multiple of 0x10000 is stored as zero, which the TRY macro takes for the first return
  of `setjmp`: the body is run again (`Exceptions.RunsAgain`,
  `Exceptions.ZeroMakesTheDifference`).
- `mem_realloc` that shrinks in place does not merge the freed tail with a free successor
  (`HeapTraces.FragmentedRun` is a run that ends with nothing allocated and two free pieces; exact
  condition in `HeapChunks.ShrinkCoalesced` and, for runs, `HeapTraces.RunCoalesced`).
- `app_storage_reset` is documented to zero the storage out. Cut after its header and CRC are
  written, it leaves old bytes behind that pass the next initialisation as empty storage and can
  be read again after a later write beyond them (`AppStorageRuns.StaleByte`,
  `AppStorageRuns.StaleByteRead`).

## Model

| member | source | states |
|---|---|---|
| `SegIndex.AlignIsLeast` | lib_alloc/mem_alloc.c:92-104 | the aligned size is the least multiple of 8 that holds the request and its 4-byte header |
| `SegIndex.IndexMatchesFloor` | lib_alloc/mem_alloc.c:109-132 | a size is in bucket b or a later one exactly when it is at least the floor of b, an independent description of the buckets |
| `SegIndex.IndexMonotone` | lib_alloc/mem_alloc.c:109-132 | larger sizes are in later buckets |
| `SegIndex.RoundUpOverhead` | lib_alloc/mem_alloc.c:153-155 | rounding a size of at least 64 up to its sub-segment adds less than a quarter |
| `SegIndex.RoundUpIsFloor` | lib_alloc/mem_alloc.c:136-177 | the rounded size is the floor of its bucket |
| `SegIndex.GoodFit` | lib_alloc/mem_alloc.c:136-177 | a chunk is in the bucket of the rounded request or a later one exactly when it is at least as large as the rounded request |
| `SegIndex.IndexInRange` | lib_alloc/mem_alloc.c:109-132 | no chunk of a heap falls outside the buckets that its largest chunk needs |
| `SegIndex.UpOutOfRange` | lib_alloc/mem_alloc.c:136-177 | a request whose rounded bucket is out of range exceeds every chunk once rounded |
| `HeapChunks.SplitTiled` | lib_alloc/mem_alloc.c:416-429 | splitting a chunk leaves chunks that tile the heap with exact back-links |
| `HeapChunks.MergeTiled` | lib_alloc/mem_alloc.c:254-291 | so does merging a chunk with its successor |
| `HeapChunks.FreeChunkTiled` | lib_alloc/mem_alloc.c:551-575 | so does freeing with coalescing on both sides |
| `HeapChunks.BackLink` | lib_alloc/mem_alloc.c:228-251 | in a tiled heap the chunk behind u names u as its physical predecessor |
| `HeapChunks.BlocksDisjoint` | lib_alloc/mem_alloc.c:369-444 | no unit belongs to two different allocated blocks |
| `HeapChunks.AllocCoalesced` | lib_alloc/mem_alloc.c:416-429 | allocation keeps any two neighbours from both being free |
| `HeapChunks.FreeCoalesced` | lib_alloc/mem_alloc.c:563-574 | so does freeing |
| `HeapChunks.ShrinkCoalesced` | lib_alloc/mem_alloc.c:502-522 | an in-place shrink does so exactly when the successor is not free |
| `HeapChunks.ShrinkLosesCoalescing` | lib_alloc/mem_alloc.c:502-522 | a concrete heap in which a shrink leaves two free neighbours |
| `HeapChunks.ShrinkThenFree` | lib_alloc/mem_alloc.c:502-522 | the loss lasts: when the block is freed later the two pieces stay apart |
| `HeapChunks.AllFreeIsOneChunk` | lib_alloc/mem_alloc.c:563-574 | a coalesced heap with nothing allocated is one chunk of the initial size |
| `FreeLists.TakeOut` | lib_alloc/mem_alloc.c:180-200 | taking a chunk out of its list keeps every other free chunk in exactly one list, that of its size |
| `FreeLists.PutIn` | lib_alloc/mem_alloc.c:203-225 | so does putting a free chunk at the head of the list of its size |
| `FreeLists.BestFitUnique` | lib_alloc/mem_alloc.c:386-409 | least size class that reaches the request, listed last: at most one free chunk is that |
| `FreeLists.FreedPartition` | lib_alloc/mem_alloc.c:551-575 | the lists that a free leaves hold every free chunk of the merged heap once, in the list of its size |
| `FreeLists.AllocPartition` | lib_alloc/mem_alloc.c:411-431 | so do those that an allocation leaves |
| `HeapImage.Unlink` | lib_alloc/mem_alloc.c:180-200 | the link writes turn a memory image of the lists into one of the lists without the chunk, and touch no payload |
| `HeapImage.Push` | lib_alloc/mem_alloc.c:203-225 | the same for a push at the head |
| `HeapImage.SplitCoherent` | lib_alloc/mem_alloc.c:416-429 | the header writes of a split represent the split heap |
| `HeapImage.SplitData` | lib_alloc/mem_alloc.c:416-429 | a split changes no payload but the one it cuts short |
| `HeapImage.MergeCoherent` | lib_alloc/mem_alloc.c:254-291 | the header writes of a merge represent the merged heap and touch no payload |
| `HeapImage.CopyCoherent` | lib_alloc/mem_alloc.c:533-536 | copying one payload into another changes no header, no link and no other payload |
| `HeapAllocator.Heap.constructor` | lib_alloc/mem_alloc.c:327-358 | a new heap is valid and is one free chunk |
| `HeapAllocator.Heap.MemInit` | lib_alloc/mem_alloc.c:327-358 | which buffers are refused, exactly |
| `HeapAllocator.Heap.ChunksValid` | lib_alloc/mem_alloc.c:228-251 | every chunk of a valid heap passes the corruption test |
| `HeapAllocator.Heap.ListRemove` | lib_alloc/mem_alloc.c:180-200 | the list loses exactly that chunk, doubly linked as before |
| `HeapAllocator.Heap.ListPush` | lib_alloc/mem_alloc.c:203-225 | the list of its size gains exactly that chunk, and its early returns are never taken |
| `HeapAllocator.Heap.Coalesce` | lib_alloc/mem_alloc.c:254-291 | merges exactly when the neighbour is free; payloads stay |
| `HeapAllocator.Heap.HeadFits` | lib_alloc/mem_alloc.c:369-444 | the head of every bucket searched is large enough |
| `HeapAllocator.Heap.NothingFits` | lib_alloc/mem_alloc.c:369-444 | if all those buckets are empty, no free chunk reaches the rounded request |
| `HeapAllocator.Heap.FindFit` | lib_alloc/mem_alloc.c:386-409 | the search fails exactly when no free chunk reaches the rounded request; otherwise it finds a chunk in the least size class of all that do, and of those the one listed last |
| `HeapAllocator.Heap.MemAlloc` | lib_alloc/mem_alloc.c:369-444 | NULL exactly for 0, for too large a request, or when no free chunk reaches the rounded size; otherwise a block that is long enough, carved from the chunk in the least size class that reaches it, listed last; the chunks and the free lists afterwards, every other payload unchanged, the heap valid and as coalesced as before |
| `HeapAllocator.Heap.MemFree` | lib_alloc/mem_alloc.c:551-575 | the block is free and merged with its free neighbours, which leave their lists, and the result is listed first in its class; every other payload is unchanged; freeing a free chunk does nothing |
| `HeapAllocator.Heap.MemRealloc` | lib_alloc/mem_alloc.c:458-543 | when it answers NULL, exactly, for a NULL pointer too; a request that fits keeps the pointer, any other moves the block to the chunk that an allocation takes; the chunks and the free lists afterwards; the common prefix is kept either way; a failure changes nothing; every other payload is unchanged; coalescing is lost exactly by a shrink in front of a free chunk |
| `HeapAllocator.Heap.MemStat` | lib_alloc/mem_alloc.c:586-631 | total is the heap size and is header plus free plus allocated; the counts are those of the chunks |
| `HeapRuns.Perform` | lib_alloc/mem_alloc.c:369-575 | a call of a client answers exactly when its step in the state machine says so, and the chunks, the free lists, the blocks held and all payloads are those of the step |
| `HeapTraces.StepBooks` | lib_alloc/mem_alloc.c:369-575 | every call keeps the chunks tiled, every free chunk in exactly the list of its size, and the client's blocks exactly the blocks in use |
| `HeapTraces.StepCoalesced` | lib_alloc/mem_alloc.c:369-575 | a call takes a coalesced heap to a coalesced heap exactly when it is not a shrink in front of a free chunk |
| `HeapTraces.StepAgrees` | lib_alloc/mem_alloc.c:369-575 | whatever the client expects of its blocks before a call it may expect, suitably updated, after it |
| `HeapTraces.RunBooks` | lib_alloc/mem_alloc.c:327-575 | in every state of every run the chunks tile the heap and the client holds exactly the blocks in use |
| `HeapTraces.RunAgrees` | lib_alloc/mem_alloc.c:327-575 | in every state of every run each block is as long as asked for and reads back what was written into it |
| `HeapTraces.RunCoalesced` | lib_alloc/mem_alloc.c:327-575 | a run keeps the heap coalesced exactly up to the first shrink in front of a free chunk |
| `HeapTraces.RunRestores` | lib_alloc/mem_alloc.c:563-574 | a run without such a call in which everything was given back ends with the initial heap |
| `HeapTraces.RunWithoutRealloc` | lib_alloc/mem_alloc.c:563-574 | in particular a run without realloc |
| `HeapTraces.FragmentedRun` | lib_alloc/mem_alloc.c:502-522 | alloc 28, realloc to 12 and free in a 200-byte heap end with nothing held and two free chunks |
| `HeapTraces.StepDetermined` | lib_alloc/mem_alloc.c:369-575 | the heap before a call determines its answer and where its block is, whatever the blocks hold |
| `HeapTraces.RunDetermined` | lib_alloc/mem_alloc.c:327-575 | two runs of one script give the same answers and the same pointers throughout |
| `HeapTraces.FreeThenAlloc` | lib_alloc/mem_alloc.c:203-225 | a block between two blocks in use that is freed and asked for again comes back at the same place exactly when its size is not rounded up |
| `HeapRuns.Replay` | lib_alloc/mem_alloc.c:327-575 | from a fresh heap every script is a run of the state machine, with exactly its answers; the heap ends valid and as the last state says; blocks are long enough and read back; without a shrink in front of a free chunk it is coalesced, and restored, chunks and free lists, once all is given back |
| `Base58.DigitsSuffice` | lib_standard_app/base58.c:120-124 | n*138/100+1 digits hold every number of n bytes |
| `Base58.MulAdd` | lib_standard_app/base58.c:126-138 | the early-exit loop multiplies by 256 and adds a byte exactly; it stops at a digit below the old bound, all digits left of which are zero, and never runs off the front |
| `Base58.Convert` | lib_standard_app/base58.c:120-138 | the digits denote the same integer as the bytes; the bound is at least 1 whenever it is used |
| `Base58.Encode` | lib_standard_app/base58.c:108-157 | refused exactly beyond 120 bytes or without room; otherwise the text is the zeros and the minimal numeral of the same integer |
| `Base58.DivideBy256` | lib_standard_app/base58.c:77-91 | one round of long division: quotient in place, remainder returned, digits below 58, the leading digit cleared |
| `Base58.DecodeDigits` | lib_standard_app/base58.c:71-91 | one round for each digit behind the leading zeros, no more and no less; the bytes denote the same integer and stay behind the zero bytes |
| `Base58.Lookup` | lib_standard_app/base58.c:57-69 | accepted exactly when every character is in the alphabet |
| `Base58.Decode` | lib_standard_app/base58.c:45-106 | which texts are refused, exactly; otherwise the zero bytes and the minimal big-endian form of the same integer |
| `Base58.Alphabet` | lib_standard_app/base58.c:24-43 | the two tables are inverse to one another |
| `Base58.LiteralAlphabet` | lib_standard_app/base58.c:38-43 | the digits in order are the characters of the alphabet written out |
| `Base58.OnlyAlphabet` | lib_standard_app/base58.c:24-36 | a character has no digit exactly when it is not one of them |
| `Base58.EncodingFits` | lib_standard_app/base58.h:10-14 | 164 characters hold the encoding of any 120 bytes |
| `Base58.DecodeEncode` | lib_standard_app/base58.c:45-157 | decoding undoes encoding exactly for inputs whose encoding has at least two characters |
| `Base58.EncodeDecode` | lib_standard_app/base58.c:45-157 | encoding undoes decoding on an accepted text exactly when the encoder takes what it decodes to: z leading '1's and a value below 256^(120-z) |
| `Base58.ShortTextsComeBack` | lib_standard_app/base58.c:45-157 | every accepted text of at most 120 characters qualifies |
| `Base58.LongTextRefused` | lib_standard_app/base58.c:108-118 | 121 characters '1' are decoded to 121 bytes, which the encoder refuses |
| `Base58.SingleCharacterRefused` | lib_standard_app/base58.c:45-56 | a one-byte input whose encoding is refused |
| `Radix.DigitsUnique` | lib_standard_app/base58.c:120-157 | a minimal numeral is determined by the number it denotes |
| `Tlv.DerMatchesGrammar` | lib_tlv/tlv_library.c:281-334 | the DER number reader accepts exactly the numbers of the grammar, with their value and end |
| `Tlv.FourByteNumber` | lib_tlv/tlv_library.c:281-313 | the long form with four bytes has its most significant byte first |
| `Tlv.GetDerU32` | lib_tlv/tlv_library.c:281-313 | a number is read, inside the payload, exactly where the grammar has one of at most four bytes |
| `Tlv.GetDerU16` | lib_tlv/tlv_library.c:325-334 | the same, refusing values above 16 bits |
| `Tlv.FindHandler` | lib_tlv/tlv_library.c:373-384 | the first handler for the tag, or none |
| `Tlv.SplitIsGrammar` | lib_tlv/tlv_library.c:408-520 | a payload splits into given items exactly when their raw slices concatenate to it and each is a tag, a length and a value |
| `Tlv.RunIsFold` | lib_tlv/tlv_library.c:408-520 | the engine handles the items of that split in order and stops at the first failure |
| `Tlv.AcceptedIffGrammar` | lib_tlv/tlv_library.c:408-520 | success exactly when the payload splits and every item passes lookup, uniqueness and its handlers in order |
| `Tlv.Parse` | lib_tlv/tlv_library.c:408-520 | the three-step loop terminates, reads only the payload, and ends as the engine specification says |
| `TlvMeaning.AcceptedMeans` | lib_tlv/tlv_library.c:408-520 | success with a given result exactly when the payload is a sequence of triplets, each taken by the common callback and then by that of the first handler with its tag, on the output the item before left and with the flags of the tags before it, and the result is the last output with the flags of all |
| `TlvMeaning.RejectedMeans` | lib_tlv/tlv_library.c:408-520 | failure exactly when some first items were handled so, and what follows is no triplet, or has an unknown tag, repeats a unique one, or is refused by the common or by its own callback |
| `Tlv.ApplyKeeps` | lib_tlv/tlv_library.c:480-503 | handling an item keeps the flags equal to the tags handed out and never hands out a unique tag twice; an accepted item was handed out last |
| `Tlv.GeneratedParser` | lib_tlv/tlv_internals.h:44-62 | with distinct tags, success means that the flags hold exactly the tags that occurred and each unique tag occurred once; a repeated one reaches no handler |
| `Tlv.CheckReceivedTags` | lib_tlv/tlv_library.c:349-363 | true exactly when every tag asked for has a flag and it is set |
| `Tlv.ReceivedMeansOccurred` | lib_tlv/tlv_library.h:144-198 | for a generated parser that means: known, and occurred |
| `Tlv.SerializedSplits` | install_params.py:45-65 | a concatenation of encoded parameters splits into the same tags and values |
| `Tlv.SerializedAccepted` | install_params.py:45-65 | and is accepted when the tags are known and not repeated where unique |
| `Utf8.BoundIsLongest` | src/os_printf.c:39-95 | the truncation point is the last whole-character boundary that fits |
| `Utf8.BoundIsWellFormed` | src/os_printf.c:39-95 | both sides of it consist of whole characters |
| `Utf8.TrailingMeans` | src/os_printf.c:39-95 | for any bytes, t is the number to cut off exactly when they end with the first t bytes of a longer character |
| `Utf8.FindInvalidTrailingBytes` | src/os_printf.c:39-95 | for any bytes, the backward scan finds exactly that number |
| `Utf8.StrlcpyUtf8` | src/os_printf.c:100-124 | for any source, what fits less a character cut off at its end; for whole characters, the longest prefix of them that fits; the source length is returned |
| `Utf8Encoding.CharIsWhole` | src/os_printf.c:27-34 | the encoding of a code point is as long as its first byte says, and the rest are continuation bytes |
| `Utf8Encoding.TextIsWhole` | src/os_printf.c:27-34 | encoded text consists of whole characters |
| `Utf8Encoding.TruncatedChars` | src/os_printf.c:100-124 | of encoded text, truncation keeps exactly the encoding of the first m characters, the next of which would not fit |
| `Utf8Encoding.TrailingChars` | src/os_printf.c:39-95 | of encoded text cut anywhere, the bytes to drop are those behind the last character that is whole |
| `Printf.Sink.Output` | src/os_printf.c:167-191 | for any bytes, what fits is stored less a character cut off at its end, whose room is lost, and everything is counted; for whole characters the destination holds the longest prefix of them |
| `Printf.ApplyPadding` | src/os_printf.c:195-257 | sign and padding as one string, whatever the width |
| `Printf.PowerSearch` | src/os_printf.c:420-430 | the weight and number of digits, although the product wraps around |
| `Printf.StopsRight` | src/os_printf.c:592-598 | the test on the wrapped product goes on exactly where the unbounded one would |
| `Printf.PlacesAreNumeral` | src/os_printf.c:436-460 | digit by digit one gets the numeral without leading zeros |
| `Printf.EmitDigits` | src/os_printf.c:436-460 | the loop emits the digits, flushing the 32-byte buffer before it overflows |
| `Printf.FormatNumber` | src/os_printf.c:592-624 | the chunks concatenate to the unbuffered string of sign, padding and digits |
| `Printf.NumberDenotes` | src/os_printf.c:420-460 | those digits denote the value |
| `PrintfReading.Layout` | src/os_printf.c:195-257 | the text has the length of digits and sign or the width, the larger of the two; the sign stands before zeros, but between blanks and digits |
| `PrintfReading.DigitsRead` | src/os_printf.c:592-624 | read in its base, the digits give the value, and no zero stands in front of another digit |
| `PrintfReading.SignedReads` | src/os_printf.c:347-460 | an independent reader of decimal numbers gets the argument of %d back, with any width and either fill |
| `PrintfReading.SignStands` | src/os_printf.c:206-257 | the minus sign is in the text exactly when the argument is negative |
| `PrintfReading.UnsignedReads` | src/os_printf.c:564-624 | the reader gets the argument of %u back |
| `PrintfReading.HexReads` | src/os_printf.c:574-624 | a reader of hexadecimal numbers gets the argument of %x and %X back |
| `PrintfReading.HexLetters` | src/os_printf.c:574-624 | the letters are in upper case for %X, in lower case for %x |
| `Printf.Snprintf` | src/os_printf.c:666-693 | returns the full length and terminates the text; for whole characters, stores the longest prefix of them in size-1 bytes and zeros behind |
| `Printf.AsciiFormat` | src/os_printf.c:666-693 | for 7-bit text that is the first size-1 characters |
| `Exceptions.RaisedCode` | src/os.c:96-110 | an exception in flight is a 16-bit value, nonzero unless some code is delivered as zero, so throwing it again delivers it unchanged |
| `Exceptions.NoRetry` | include/exceptions.h:65-71 | in a program without codes delivered as zero no block is run again: the semantics with and without that branch agree |
| `Exceptions.ZeroMakesTheDifference` | include/exceptions.h:65-71 | around a body on which they agree, they agree on the block exactly when the body does not end with a code delivered as zero |
| `Exceptions.RunsAgain` | include/exceptions.h:65-71 | a program whose block is run again and ends normally where an exception should have left it |
| `Exceptions.EvalMore` | include/exceptions.h:58-142 | the structured result of a program that ends does not depend on the bound on its loops |
| `Exceptions.NormalEnd` | include/exceptions.h:58-142 | a block that notes which clauses it enters: after a body that ends normally, FINALLY, once, and no CATCH |
| `Exceptions.UnmatchedCode` | include/exceptions.h:111-142 | after a code that no clause takes, FINALLY, once; then the code leaves the block, unless FINALLY raises its own |
| `Exceptions.MatchedCode` | include/exceptions.h:73-142 | after a code that is taken, only the first clause that takes it, on the data as thrown; if it ends normally FINALLY follows, once; if it raises, its code leaves at once |
| `Exceptions.ZeroStartsOver` | include/exceptions.h:65-71 | after a code delivered as zero no clause is entered and the block starts over |
| `Exceptions.WatchingIsHarmless` | include/exceptions.h:58-142 | without its notes such a block is the block itself |
| `Exceptions.LoopCounts` | include/exceptions.h:58-142 | a loop in a program runs as often as its condition says |
| `Exceptions.DeliveredCodes` | src/os.c:96-110 | which codes a THROW delivers: a 16-bit code as it is, zero as one, other multiples of 0x10000 as zero |
| `Exceptions.Machine.Exec` | include/exceptions.h:58-142 | every program ends as its structured semantics says, at the innermost enclosing TRY if it raises, with blocks run again after a code delivered as zero; the context on leaving is the one on entry |
| `Exceptions.Machine.ExecTry` | include/exceptions.h:58-142 | the same for one TRY block, whether or not `longjmp` restores the context register |
| `Exceptions.Machine.Land` | include/exceptions.h:65-109 | the return of a jump: a matching CATCH runs with the block already closed, otherwise the code stays pending |
| `Exceptions.Machine.Finish` | include/exceptions.h:111-142 | FINALLY runs in the enclosing context, and a pending code is thrown after it unless FINALLY raises |
| `Orderings.FilterSplits` | lib_lists/lists.c:130-153 | kept and removed elements together are the original ones |
| `Orderings.OthersInOrder` | lib_lists/lists.c:130-153 | each element kept stands right behind those kept of the elements before it |
| `Orderings.MatchingInOrder` | lib_lists/lists.c:130-153 | and so with those removed |
| `Orderings.HeadsSplit` | lib_lists/lists.c:187-208 | so are the heads of runs and what is dropped |
| `Orderings.HeadsStartRuns` | lib_lists/lists.c:187-208 | the elements kept stand at the starts of runs that cover the sequence: each is matched with all up to the next start, and not with that one |
| `Orderings.StableSortOrdered` | lib_lists/lists.c:155-185 | the reference sort is ordered |
| `Orderings.StableSortMembers` | lib_lists/lists.c:155-185 | it is a permutation |
| `Orderings.StableSortStable` | lib_lists/lists.c:155-185 | it keeps the order of ties |
| `Orderings.ExchangeRemovesOne` | lib_lists/lists.c:166-182 | an exchange removes exactly one inversion |
| `Orderings.ExchangeKeepsSorted` | lib_lists/lists.c:166-182 | an exchange does not change what the sorted result will be |
| `Orderings.TerminatesIffComparable` | lib_lists/lists.c:155-185 | for a transitive comparator the passes end exactly when any two different nodes are accepted one way round |
| `Orderings.StrictComparisonNeverEnds` | lib_lists/lists.h:59-72 | two equal numbers compared by "less than" are exchanged for ever |
| `Orderings.SortThenThin` | lib_lists/lists.h:88-102 | sorting and then dropping duplicates leaves a strictly ascending sequence with a representative of every element |
| `Lists.List.PushFront` | lib_lists/lists.c:15-29 | the node is prepended, prev stays inverse to next |
| `Lists.List.PopFront` | lib_lists/lists.c:31-49 | the first node is removed and given up |
| `Lists.List.PushBack` | lib_lists/lists.c:51-76 | the node is appended |
| `Lists.InsertedAt` | lib_lists/lists.c:78-92 | an inserted node is at its place, and without it the sequence is the old one |
| `Lists.List.PopBack` | lib_lists/lists.c:252-272 | the last node is removed and given up |
| `Lists.List.InsertAfter` | lib_lists/lists.c:78-92 | the node is inserted after the reference, in the list that the reference is in |
| `Lists.List.InsertBefore` | lib_lists/lists.c:366-378 | the node is inserted before the reference, in this list or in the other list that the reference is in; refused exactly when it is in none or first in another |
| `Lists.List.Remove` | lib_lists/lists.c:94-128 | exactly that node is removed and given up; false exactly when it is not in the list |
| `Lists.List.RemoveIf` | lib_lists/lists.c:130-153 | the list is filtered, each removed node is given up once and in order, and the count is theirs and by how much the list got shorter |
| `Lists.List.Unique` | lib_lists/lists.c:187-208 | only the head of each maximal run is kept, each other node is given up once, and the count is theirs and by how much the list got shorter |
| `Lists.List.Reverse` | lib_lists/lists.c:210-231 | the reversed sequence, prev again inverse to next |
| `Lists.List.Clear` | lib_lists/lists.c:290-308 | empty, every node given up once and in order |
| `Lists.List.Sort` | lib_lists/lists.c:155-185 | for exactly the comparators and lists on which the passes end: an ordered permutation of the same nodes; for a transitive comparator, the stable sort |
| `Lists.List.Pass` | lib_lists/lists.c:164-183 | one pass of the sort is the pass on sequences, and reports no exchange exactly when the list was ordered |
| `AppStorage.Device.Nvm` | lib_standard_app/app_storage.c:58-63 | a write happens whole or, with the power gone, not at all; data writes stay inside the data area |
| `AppStorageRuns.InitRecovers` | lib_standard_app/app_storage.c:33-116 | an initialisation that completes makes the storage usable and keeps the data area: unchanged if its tag and CRC were right, with a fresh header otherwise |
| `AppStorage.Device.SystemHeaderReset` | lib_standard_app/app_storage.c:68-82 | header, then CRC, as far as power lasts |
| `AppStorage.Device.AppStorageInit` | lib_standard_app/app_storage.c:97-116 | the prefix of its planned writes that power allows, and the status |
| `AppStorage.Device.AppStorageReset` | lib_standard_app/app_storage.c:121-146 | the same for a reset: header, CRC, zeros block by block, CRC |
| `AppStorage.Device.AppStorageWrite` | lib_standard_app/app_storage.c:204-233 | the same for a write: data, size if it grows, CRC; which arguments are refused |
| `AppStorage.Device.AppStorageRead` | lib_standard_app/app_storage.c:238-261 | the bytes asked for, exactly when they lie below the size |
| `AppStorage.Device.IncrementDataVersion` | lib_standard_app/app_storage.c:175-189 | version, then CRC, wrapping around to 1 |
| `AppStorageRuns.InitFields` | lib_standard_app/app_storage.c:68-116 | what a completed initialisation leaves: the tag NVRA, size 0, both versions 1, the properties of the build, the data as they were and a CRC over the header; a flash whose tag and CRC are right is left alone |
| `AppStorageRuns.VersionFields` | lib_standard_app/app_storage.c:175-189 | the next version is one more, or 1 behind the largest, and the CRC is made right after it; nothing else changes |
| `AppStorageRuns.WriteCut` | lib_standard_app/app_storage.c:204-233 | what a write cut after any step leaves: data first, then the size where it grows, the CRC last |
| `AppStorageRuns.WriteRefused` | lib_standard_app/app_storage.c:204-221 | which arguments are refused with which code; the flash is then unchanged |
| `AppStorageRuns.EventsSane` | lib_standard_app/app_storage.c:33-146 | after any operations, interrupted anywhere, a tagged header never claims more than the data area |
| `AppStorageRuns.InitAfterAnything` | lib_standard_app/app_storage.c:97-116 | from untagged flash and after anything, an initialisation that completes leaves a CRC that matches |
| `AppStorageRuns.InterruptionIsDetected` | lib_standard_app/app_storage.c:97-261 | after an interrupted operation and an initialisation the storage holds the old content, or nothing, or the complete new state, unless two contents share a CRC |
| `AppStorageRuns.SessionIsDetected` | lib_standard_app/app_storage.c:97-261 | the same when any number of initialisations are cut before one completes |
| `AppStorageRuns.RunIsDetected` | lib_standard_app/app_storage.c:97-261 | over any run of such sessions, what was readable stays readable as it was, unless an operation was meant to change it, the storage was found empty, or two contents shared a CRC |
| `AppStorageRuns.ResetZeroes` | lib_standard_app/app_storage.c:121-146 | a completed reset zeroes every data byte |
| `AppStorageRuns.ResetCut` | lib_standard_app/app_storage.c:121-146 | a reset cut anywhere has zeroed exactly the blocks it got to and left the other bytes as they were |
| `AppStorageRuns.StaleByte` | lib_standard_app/app_storage.c:121-146 | after a cut reset and an initialisation an old byte is readable again exactly when a later write ends beyond it, and has its old value exactly where the erasing did not get |
| `AppStorageRuns.StaleByteRead` | lib_standard_app/app_storage.c:121-146 | it happens: reset cut after two writes, initialisation, one write |
| `AppStorageRuns.UncutRun` | lib_standard_app/app_storage.c:204-261 | without power cuts the storage is a byte array with a high-water mark, and its CRC always matches |
| `AppStorageRuns.ReadBack` | lib_standard_app/app_storage.c:204-261 | what was written is read back after any operations that do not write over it |
| `Bip32.Bip32PathFormat` | lib_standard_app/bip32.c:49-90 | when it answers true, exactly, and that the buffer then holds the text as far as it fits, and zeros otherwise |
| `Bip32.NeverCutSilently` | lib_standard_app/bip32.c:49-90 | an answer of true means the whole text, for every room, exactly for paths whose last element is hardened or has one digit |
| `Bip32.CutSilently` | lib_standard_app/bip32.c:60-66 | a path printed as true with one of its two digits |
| `Bip32.SplitJoin` | install_params.py:99-100 | splitting at slashes undoes joining |
| `Bip32.ParseBip32Path` | install_params.py:99-114 | refused exactly when an element is, on 7-bit text: blanks, a sign and underscores are taken as the script takes them; otherwise the length and the big-endian elements |
| `Bip32.ParseFormatted` | install_params.py:99-114 | parsing undoes printing exactly for paths without the reserved 0x7fffffff |
| `Bip32.LiteralPath` | install_params.py:99-114 | the path 44'/1 with its text and its nine bytes written out |
| `Bip32.WildcardElement` | install_params.py:105-106 | the text * is packed as 01 7f ff ff ff |
| `Bip32.IntOfSigned` | install_params.py:103-108 | blanks around a number and a sign in front of it are understood |
| `Bip32.ReadPacked` | lib_standard_app/read.c:26-32 | reading a big-endian word undoes packing it |
| `Bip32.BigEndianOrder` | lib_standard_app/read.c:26-32 | the most significant byte is read and packed first |
| `Bip32.Bip32PathRead` | lib_standard_app/bip32.c:26-47 | when it succeeds, exactly, and the words read |
| `Bip32.Buffer.SeekCur` | lib_standard_app/buffer.c:45-55 | moves exactly when the target is inside the buffer, although the sum wraps around |
| `Bip32.Buffer.GetPathBip32` | lib_standard_app/buffer.c:155-178 | the path at the offset, consuming 1+4n bytes; a refused path still consumes its length byte |
| `Bip32.DecodeEncoded` | lib_standard_app/buffer.c:155-178 | the binary reader undoes the encoder, whatever follows |
| `Bip32.FormatParseRead` | lib_standard_app/bip32.c:26-90 | printed with room, parsed and read back, a path of 1 to 10 elements without the reserved one is the same |

## Left out

- The system calls, the USB, BLE and NFC stacks, the event loop, the cryptographic wrappers, the user interface and the build metadata: they rest on code that is not in the repository.
- The memory profiling wrappers, varint and fixed-width readers and writers, fixed-point formatting and the APDU parser: they would only add easy members.
- NULL arguments, logging and `PIC()` are not modelled; a method takes the object itself.
- The check values of the CRC and its bytes beyond the data area are not modelled: where an untagged header claims a size beyond the data area, the CRC covers the data area only.
- AppStorage.Device.AppStorageRead: requires a size that fits the data area, which every initialised storage has (`AppStorageRuns.EventsSane`); bytes beyond it are not part of this model.
- HeapAllocator.Heap.MemFree: takes a pointer to the payload of some chunk, allocated or free; a pointer into the middle of a chunk is caught in the code only by chance.
- HeapAllocator.Heap.MemRealloc: takes NULL, a pointer outside the chunk area or the payload of a live block, for the same reason.
- The chunk walk of `mem_parse` with a caller's callback appears only as the walk that `mem_stat` makes.
- A back-link equal to the end of the heap, which the corruption test would read just past the buffer, counts as corrupt; no valid heap has one.
- Exceptions.Machine.Exec: does not model blocks left by return, break or goto; where `longjmp` does not restore the current context it takes programs without codes delivered as zero only, since such a code would make a block its own predecessor.
- Printf.FormatNumber: the most negative value of a signed conversion is left out, since its magnitude does not fit the signed word.
- Printf.Snprintf: parsing the format string itself and the conversions %s, %c, %p, %h, %H and %.* are left out; a format is given by its pieces.
- Utf8.BoundIsLongest: a whole character is a lead byte followed by as many continuation bytes as it announces, which admits more than section 3 of RFC 3629 (overlong forms and surrogates).
- Printf.ApplyPadding: the fill character is 7-bit, as the format syntax yields only a space or a zero.
- The accessors that turn a TLV value into an integer or a string, and the common-handler macros beyond the reception flags, are left out.
- Bip32.ParseBip32Path: the non-ASCII digits and blanks that the script's integer conversion also takes are treated as errors, and its limit on the number of digits is left out.
- Bip32.Bip32PathFormat: needs at least one byte of room; with none the code takes the length of whatever lies there.
- Lists.List.Sort: requires that the passes end, since otherwise the code does not.
- Lists.List.InsertAfter: requires a reference in some list; the links of any other node are not modelled.
- Lists.List.InsertBefore: a reference in no list must have no predecessor, for the same reason.
- Stack use, timing and 64-bit pointer layouts are not modelled.
