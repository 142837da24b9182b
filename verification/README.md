# Verified models of the libraries FlexETL runs on

FlexETL's hard code is in the libraries it vendors.  This project models three of them in Dafny and proves what they
promise.

**LZ4 block codec.**  `Lz4Block` is the block format (sequences, their text and their bytes) and the decoder as a
function; `Lz4Accept` says exactly which inputs it accepts; `Lz4Word` compares bytes a word at a time; `Lz4Memory` is the copying primitives on byte arrays; `Lz4Decoder`
is the decoder that uses them, proved to refine the function on every input; `Lz4Emit`, `Lz4Search` and `Lz4Encoder` are
the compressor, `Lz4Limited` the same under an output limit, `Lz4DestSize` the compressor that fills a buffer of given
size, `Lz4RoundTrip` the round trips, and `Lz4Hc` the hash-chain search.  A pointer is an index into its array.

**moodycamel queue.**  `FreeList`, `OptimisticDequeue`, `ImplicitHash`, `Semaphore` and `BlockingQueue` are state machines
over the steps of any number of threads, one atomic access a step, in any interleaving; every property is proved of
every reachable state of every run.  Fields described as auxiliary are written by steps and read only by the proofs.
`ExplicitProducer` is a producer's block list and block index as a class, proved to be a first-in first-out queue.

**RapidJSON.**  `JsonGrammar` says what each parsing function of the reader does; `JsonReader` is the reader, method by
method; `JsonMachine` the table-driven parser with its stack and its equivalence to the recursive one.  `JsonValue` is
what a text stands for and `JsonSyntax` when it does, as a grammar of its own; `JsonLexis`, `JsonSpelling`,
`JsonWellFormed` and `JsonSpelled` prove that the parsers accept exactly that grammar.  `JsonText` and `JsonWriter` are
the two writers, `JsonRoundTrip` is printing and parsing again, `JsonShortest` and `JsonLayout` say what the printed text
looks like, `JsonDocument` is the DOM builder and its visitor.  `Utf8Encoding` and `JsonAscii` are UTF-8 and the ASCII
writer, `JsonPointer` is JSON Pointer and `JsonPointerText` what its texts are.

`Words`, `Powers`, `Sets` and `Wrappers` hold what several modules share.  `dafny verify dfyconfig.toml` checks
everything.

## Findings

Where the code and its documentation differ, the models follow the code:

| documentation | inputs | what the code does | proved by |
|---|---|---|---|
| `contrib/lz4/lz4.h:98`: the decoder never reads outside its input | a non-empty output buffer, with an input of no bytes, or with the one byte 240 (any from 240 to 255) | reads the byte behind the input; on all other inputs it does not | `Lz4Block.OverreadExactlyWhen`, `Lz4Decoder.DecompressSafe` |
| `contrib/rapidjson/pointer.h:970`: overflow detection | `/5000000000` | takes it for index 705032704; noticed are exactly the numbers of which some prefix wraps below the one before it | `JsonPointer.OverflowMissed`, `JsonPointer.OverflowNoticed` |
| `contrib/concurrentqueue/concurrentqueue.h:430-441`: the order of wrapped counters | counters exactly half the range apart, such as 0 and 2^63 | orders them neither way | `ExplicitProducer.NeitherWay` |
| `contrib/lz4/lz4.h:87`: LZ4_compress_default never writes outside `dest` | 330505 equal bytes, a buffer of 1300 | a byte of the match length goes behind the buffer; on a source of equal bytes exactly when the length bytes of its one match pass the check and do not fit; on no source below 134665 bytes | `Lz4Limited.CompressDefault`, `Lz4Limited.CheckMissed`, `Lz4Limited.CheckSuffices` |
| `contrib/lz4/lz4.h:146-147`: LZ4_compress_destSize fills `dest` completely, or consumes the whole source | 16 different bytes, a target of 16 | writes 15 bytes and consumes 14; the last literals fill the room left if and only if the last length byte for it is at least the number of its length bytes | `Lz4DestSize.FillMissed`, `Lz4DestSize.FillsExactly`, `Lz4DestSize.CompressDestSize` |

## Model

| member | source | states |
|---|---|---|
| Lz4RoundTrip.CompressThenDecompress | contrib/lz4/lz4.c:697-700 | compress_default then decompress_safe into a buffer of the source length, for every source and output buffer: every byte comes back; with an output buffer of compressBound bytes compression always succeeds within the bound; with a smaller one it yields 0 or a block that decompresses to the source, or the method stops, on sources of 134665 bytes or more only, where a byte would be written behind the buffer |
| Lz4RoundTrip.CompressPrefixThenDecompress | contrib/lz4/lz4.c:912-926 | compress_destSize then decompress_safe into exactly the consumed length: at most the target size is written, and exactly the consumed prefix of the source comes back |
| Lz4RoundTrip.Restore | contrib/lz4/lz4.c:1288-1291 | any block that encodes a text under the end-of-block rules, decoded into a buffer of the text's size, restores it |
| Lz4Block.DecodeBlock | contrib/lz4/lz4.c:1110-1285 | the reference decoder, which Lz4Decoder.DecompressSafe refines on arrays, inverts the format: every valid list of sequences whose last match keeps MFLIMIT and whose last literals keep LASTLITERALS decodes to its text, although the decoder's end tests look only at distances to the buffer ends |
| Lz4Block.DecodeSequences | contrib/lz4/lz4.c:1150-1274 | after decoding the encoded sequences the reference decoder stands at their end with their text, if each leaves the room its end tests ask for |
| Lz4Accept.AcceptedIsDecoded | contrib/lz4/lz4.c:1150-1285 | a list of sequences with literals behind it, whose offsets reach back into the text so far and whose lengths keep the distances the end tests ask for, is decoded to its text with every input byte consumed |
| Lz4Accept.DecodesExactly | contrib/lz4/lz4.c:1110-1285 | the reference decoder succeeds, into an output buffer that is not empty, if and only if the whole input is such a block and its text fits, and the output is that text; offsets of zero, which repeat what the buffer held, are taken and told apart |
| Lz4Accept.FailsBelowZero | contrib/lz4/lz4.c:1280-1284 | on every other input the result is negative, or the reading goes behind the input |
| Lz4Accept.SucceedsExactly | contrib/lz4/lz4.c:1110-1285 | the result is not negative if and only if the input is an accepted block |
| Lz4Block.DecodeOneSequence | contrib/lz4/lz4.c:1150-1274 | one encoded sequence is one turn of the reference decoder's loop, at the distances to the buffer ends its end tests ask for |
| Lz4Block.ReadLiterals | contrib/lz4/lz4.c:1156-1169 | token and length bytes of a literal run read back as its length, at any length |
| Lz4Block.ReadMatch | contrib/lz4/lz4.c:1194-1211 | offset and match-length bytes read back as offset and match length |
| Lz4Block.OverreadExactlyWhen | contrib/lz4/lz4.c:1145-1169 | of the token and length bytes, one past the input is read if and only if the output buffer is not empty and the input is empty or a single byte of 240 or more; lz4.h:98 says it never does |
| Lz4Block.DecodeStaysInside | contrib/lz4/lz4.c:1150-1274 | with two input bytes or more left, no token or length byte outside the block is read, well formed or not; Lz4Decoder.DecompressSafe adds the copies and the writes |
| Lz4Block.CopyMatchIsPeriodic | contrib/lz4/lz4.c:1246-1273 | byte-by-byte overlapping copy: each new byte equals the one offset places before it |
| Lz4Block.PeriodicIsCopyMatch | contrib/lz4/lz4.c:1246-1273 | the converse: a text with that property is the byte-by-byte copy |
| Lz4Decoder.DecompressSafe | contrib/lz4/lz4.c:1110-1285 | on every input, well formed or not, the array decoder returns what the reference decoder returns: a result of zero or more if and only if the whole input is a block in the format at the end-of-block distances whose text fits, and then its length and its text; every byte read or written, by the wild copies too, is inside the two buffers, except exactly on the inputs of the finding below, where it stops instead |
| Lz4Decoder.DecompressGeneric | contrib/lz4/lz4.c:1143-1285 | the loop over arrays computes the outcome of the reference decoder |
| Lz4Decoder.DecodeSequence | contrib/lz4/lz4.c:1150-1274 | one turn of the loop over arrays, literal copy and match copy included, is one turn of the reference decoder |
| Lz4Decoder.DecodeMatch | contrib/lz4/lz4.c:1194-1273 | offset, match length and match copy of one sequence refine the reference decoder's second half of a turn, with the same error code where it fails |
| Lz4Decoder.ReadLiteralLength | contrib/lz4/lz4.c:1158-1169 | the literal-length loop computes the reference length or meets the end of the input exactly where the reference does |
| Lz4Decoder.ReadMatchLength | contrib/lz4/lz4.c:1199-1210 | the match-length loop computes the reference length, or stops with the same error position |
| Lz4Memory.WildCopyLiterals | contrib/lz4/lz4.c:207-213 | eight bytes at a time between buffers: exactly the bytes wanted below the end, and nothing written beyond seven bytes past it (eight for an empty copy) |
| Lz4Memory.WildCopyMatch | contrib/lz4/lz4.c:207-213 | eight bytes at a time inside the output: at distance eight or more the text is repeated with that period; nothing is written beyond seven bytes past the end (eight for an empty copy) |
| Lz4Memory.StartOverlappingMatch | contrib/lz4/lz4.c:1248-1257 | the dec32/dec64 tables: the eight bytes written repeat the text with the true offset, and the read pointer is left StartDistance behind |
| Lz4Memory.PeriodExtends | contrib/lz4/lz4.c:1246-1273 | going on at the start distance, a multiple of the offset, keeps the period of the offset |
| Lz4Memory.FinishMatch | contrib/lz4/lz4.c:1260-1272 | the wild copy kept off the last eight bytes and the tail loop repeat the text up to the end of the match, inside the buffer |
| Lz4Memory.CopyMatchFast | contrib/lz4/lz4.c:1246-1273 | the whole fast match copy leaves below its end what the byte-by-byte overlapping copy leaves, for every offset of at least 1 and every length; refused exactly when it would reach the last five bytes |
| Lz4Word.XorSplits | contrib/lz4/lz4.c:248-259 | exclusive-or works on low and high bits separately |
| Lz4Word.ZerosSplit | contrib/lz4/lz4.c:259 | trailing zeros are found in the low bits, or go on above them |
| Lz4Word.CommonBytesOfWords | contrib/lz4/lz4.c:248-264 | the exclusive-or of two little-endian words is zero if and only if all bytes agree; else an eighth of its trailing zeros is the number of bytes before the first difference |
| Lz4Emit.CommonBytes | contrib/lz4/lz4.c:321-324 | one step of eight bytes: how many agree, from the words |
| Lz4Emit.SameWord | contrib/lz4/lz4.c:327-328 | words are equal exactly when their bytes are |
| Lz4Emit.Count | contrib/lz4/lz4.c:315-331 | eight bytes at a time, then four, two and one: exactly the length of the common prefix up to the limit |
| Lz4Emit.PutLength | contrib/lz4/lz4.c:546-547 | a run of 255s and a last byte are appended for any length |
| Lz4Emit.PutLengthByPairs | contrib/lz4/lz4.c:591-593 | the match-length bytes written two 255s at a time are the same bytes |
| Lz4Emit.PutLiterals | contrib/lz4/lz4.c:536-554 | token, length bytes and literals of a sequence are appended; the overshoot of the wild copy stays within eight bytes |
| Lz4Emit.PutMatchLength | contrib/lz4/lz4.c:585-596 | with the token's low nibble and the match-length bytes, the sequence's encoding is complete |
| Lz4Emit.PutPositionOnHash | contrib/lz4/lz4.c:406-414 | the slot holds the position and every other slot keeps its own; positions in the table stay behind the scan |
| Lz4Search.IsMatch | contrib/lz4/lz4.c:621-625 | true exactly for a position within 65535 bytes whose four bytes agree |
| Lz4Search.FindMatch | contrib/lz4/lz4.c:502-531 | the search, with its growing steps, ends at the first of its probes whose slot holds a usable match - the last earlier probe with the same hash, or what the slot held before - and fails only if no probe before the end has one; the table is what the probes made it |
| Lz4Search.UniformMatches | contrib/lz4/lz4.c:502-531 | in a source of equal bytes the first position is a match for every one within reach |
| Lz4Search.CatchUp | contrib/lz4/lz4.c:534 | going back over equal bytes keeps the offset, never passes the anchor, and stops only there, at the start of the source or at a difference |
| Lz4Search.EndSequence | contrib/lz4/lz4.c:556-598 | writing a repeated stretch of the source as a sequence: the output now encodes sequences that stand for the source up to its end |
| Lz4Search.Finish | contrib/lz4/lz4.c:631-653 | the last literals complete a block of the source that obeys the end-of-block rules |
| Lz4Encoder.SequenceBudget | contrib/lz4/lz4.c:536-596 | one more sequence keeps the output within 256 bytes for each 255 bytes of source |
| Lz4Encoder.LiteralBudget | contrib/lz4/lz4.c:536-554 | so every literal run fits in compressBound bytes, wild-copy overshoot included |
| Lz4Encoder.EmitMatch | contrib/lz4/lz4.c:556-598 | the match is written at the full length of its common prefix up to the last five bytes, in exactly the bytes that takes, and the budget kept |
| Lz4Encoder.NextMatch | contrib/lz4/lz4.c:613-629 | behind a sequence both positions are entered and the match tried is the one of the slot, which the first may just have taken |
| Lz4Encoder.EmitChain | contrib/lz4/lz4.c:556-629 | all matches that follow directly: progress, end-of-block clearance and budget are kept, the scan moves forward, and it ends exactly where a match reaches the last twelve bytes or none follows |
| Lz4Encoder.CompressRound | contrib/lz4/lz4.c:493-629 | one round of the main loop keeps progress, clearance and budget, over all sequences so far, and moves forward; a match in the table at its start is written; nothing is where nothing comes twice, and one match where all bytes are equal |
| Lz4Encoder.CompressGeneric | contrib/lz4/lz4.c:435-654 | notLimited: the result is the length of a block of the whole source, within n + n/255 + 16, and no byte past that bound is written; a source of equal bytes takes exactly a literal, one match and five literals, one in which no four bytes come twice exactly its literals; unsupported sizes give 0 |
| Lz4Encoder.CompressUnlimited | contrib/lz4/lz4.c:662-668 | the same, with both table types used where they are sound |
| Lz4Limited.CheckSuffices | contrib/lz4/lz4.c:585-586 | the check by a 256th of the match length makes sure of its bytes, which go by 255, and of so many more, wherever the buffer ends, if and only if they are not more than it allows for |
| Lz4Limited.CheckMissed | contrib/lz4/lz4.c:585-586 | 330505 equal bytes and a buffer of 1300 meet the condition under which CompressDefault would write behind it |
| Lz4Limited.CheckedRoom | contrib/lz4/lz4.c:585-586 | for matches below 134655 bytes the check leaves room for the length bytes and for the token and offset that follow unchecked |
| Lz4Limited.EmitMatch | contrib/lz4/lz4.c:556-598 | a match is written at its full length inside the buffer, given up, or stopped before a write behind the buffer, exactly as its common prefix and the room say; no source below 134665 bytes leads to the last |
| Lz4Limited.EmitChain | contrib/lz4/lz4.c:556-629 | matches that follow directly; the outcome of the first decides unless it is written and leaves room for another |
| Lz4Limited.CompressRound | contrib/lz4/lz4.c:493-629 | one round of the main loop; in a source of equal bytes the first is the last, and its match is written, given up or stopped exactly as its check and the room say; where nothing comes twice nothing is written |
| Lz4Limited.CompressLimited | contrib/lz4/lz4.c:435-654 | limitedOutput, both table types: 0 or a block of the whole source, inside the buffer; stopped before a write behind the buffer, which no source below 134665 bytes leads to; for sources of equal bytes, and for those in which no four bytes come twice, exactly when it is stopped, when it yields 0, and the size otherwise |
| Lz4Limited.CompressDefault | contrib/lz4/lz4.c:657-700 | 0 where it fails, else a block of the source; never 0, and never stopped, with compressBound bytes; with any buffer the exact outcome for sources of equal bytes and for those without repetition |
| Lz4DestSize.EmitMatch | contrib/lz4/lz4.c:813-841 | a match is written at its full length, or, where its description would not fit, at exactly the length that takes the room up to the token and the five literals still to come |
| Lz4DestSize.EmitChain | contrib/lz4/lz4.c:814-858 | matches that follow directly, up to the end of the source or of the room |
| Lz4DestSize.LastLiterals | contrib/lz4/lz4.c:861-890 | all remaining literals if and only if they fit; else exactly the run made for the room, which ends the block and leaves what FillsExactly says |
| Lz4DestSize.FillsExactly | contrib/lz4/lz4.c:861-874 | the literals adapted to the room fill it if and only if the last length byte for the whole room is at least the number of its length bytes; never is more than one byte in 65025 left |
| Lz4DestSize.FillMissed | contrib/lz4/lz4.c:861-874 | sixteen different bytes and a target of sixteen leave a byte |
| Lz4DestSize.CompressRound | contrib/lz4/lz4.c:756-858 | one round of the main loop; of a source of equal bytes the only one, with the match shortened to the room |
| Lz4DestSize.CompressDestSizeGeneric | contrib/lz4/lz4.c:722-891 | at most targetDstSize bytes are written and they are a block of exactly the consumed prefix, for every source and every target of at least 1; part of the source is left only where the target is filled but for what FillsExactly says; exactly how much of a source of equal bytes, and of one without repetition, is consumed |
| Lz4DestSize.CompressDestSize | contrib/lz4/lz4.c:894-926 | the same; a target of compressBound bytes consumes the whole source |
| Lz4Hc.LastWith | contrib/lz4/lz4hc.c:138-146 | the last earlier position with a hash value, which is what a slot of the hash table stands for |
| Lz4Emit.CommonIs | contrib/lz4/lz4.c:315-331 | bytes that agree up to a difference or the limit are the common prefix |
| Lz4Hc.CandidatesDescend | contrib/lz4/lz4hc.c:170-200 | the positions the chain visits go strictly down, stay in the window and all have the hash of the first |
| Lz4Hc.CandidatesComplete | contrib/lz4/lz4hc.c:170-200 | with enough attempts every position of the window with the hash is visited |
| Lz4Hc.EveryMatchIsACandidate | contrib/lz4/lz4hc.c:170-200 | so every position of the window that agrees on four bytes is |
| Lz4Hc.LongestOfWindow | contrib/lz4/lz4hc.c:170-200 | with attempts enough the best candidate is the best of the whole window |
| Lz4Hc.NextInChain | contrib/lz4/lz4hc.c:199 | a chain entry leads to the next candidate, or below the window when it was clamped at 65535 or there is none |
| Lz4Hc.TryCandidate | contrib/lz4/lz4hc.c:175-183 | despite the one-byte pre-filter the best length grows exactly when the candidate agrees on more bytes |
| Lz4Hc.HashChain.InsertOne | contrib/lz4/lz4hc.c:138-146 | the tables stand for one more position, wrap-around of the chain table included |
| Lz4Hc.HashChain.Insert | contrib/lz4/lz4hc.c:130-149 | all positions below ip, and only those, are in the tables |
| Lz4Hc.HashChain.WalkChain | contrib/lz4/lz4hc.c:168-203 | the length reported is the longest over the candidates visited, the match lies before ip at a distance of at most 65535 and agrees on every byte counted |
| Lz4Hc.HashChain.FindBestMatch | contrib/lz4/lz4hc.c:152-203 | the same, the positions below ip having been inserted by the call; with attempts enough it is the longest agreement over every position of the window |
| Lz4Hc.EncodeSequence | contrib/lz4/lz4hc.c:290-331 | whatever match is chosen, the block goes on to stand for the source up to the end of the match: within the size bound without output limit; with one inside the buffer, or given up, and never given up with a token and five literals to spare; stopped before a write behind the buffer, which needs a run of 4095 literals or a match beyond 330495 bytes |
| FreeList.StepKeeps | contrib/concurrentqueue/concurrentqueue.h:1399-1478 | every step of every thread keeps the invariant (reference counts, responsibility for each node, links and list) |
| FreeList.RunKeeps | contrib/concurrentqueue/concurrentqueue.h:1399-1478 | so it holds in every reachable state |
| FreeList.HandedOutToOne | contrib/concurrentqueue/concurrentqueue.h:1413-1449 | a node about to be handed out is off the list, held by no client and handed out by no other thread; the assertion about the top bit holds |
| FreeList.ReferenceCount | contrib/concurrentqueue/concurrentqueue.h:1399-1478 | the low 31 bits are the holders plus one for list, publisher or taker; the top bit is set exactly while the node waits to be added |
| FreeList.HeldLinkStable | contrib/concurrentqueue/concurrentqueue.h:1427-1430 | no step changes the link of a node that a try_get references |
| FreeList.NoAba | contrib/concurrentqueue/concurrentqueue.h:1427-1430 | nor does any number of steps while the reference is held |
| FreeList.CasInstallsTheLink | contrib/concurrentqueue/concurrentqueue.h:1429-1438 | when the exchange of the head succeeds, the link read earlier is still the node's, and the rest of the list remains |
| FreeList.NothingLost | contrib/concurrentqueue/concurrentqueue.h:1399-1478 | an added node is on the list, or a thread is at work on it, or its top bit is set and some try_get still references it |
| FreeList.LastHolderAdds | contrib/concurrentqueue/concurrentqueue.h:1440-1446 | the last of those holders to let go adds it |
| FreeList.AtRest | contrib/concurrentqueue/concurrentqueue.h:1399-1478 | with no call in progress the list holds exactly the nodes added and not got back, each once with count one; all other counts are zero |
| FreeList.UncontendedGet | contrib/concurrentqueue/concurrentqueue.h:1413-1449 | a try_get that nobody disturbs, begun while the list holds a node, takes the first node of the list, leaves the others and ends with that node in the caller's hands |
| FreeList.UncontendedGetOfNone | contrib/concurrentqueue/concurrentqueue.h:1413-1449 | on an empty list it returns null and changes nothing |
| FreeList.UncontendedAdd | contrib/concurrentqueue/concurrentqueue.h:1399-1411 | an add that nobody disturbs puts the node in front of the list |
| FreeList.NullMeansEmpty | contrib/concurrentqueue/concurrentqueue.h:1413-1449 | in every run a try_get that returns null has seen the list empty at some moment of its call |
| OptimisticDequeue.CircularOrder | contrib/concurrentqueue/concurrentqueue.h:430-441 | comparing wrapped words orders the counters while they are less than half the range apart |
| OptimisticDequeue.DifferenceInRange | contrib/concurrentqueue/concurrentqueue.h:2195-2206 | the wrapped difference tested and used by dequeue_bulk is the true one |
| OptimisticDequeue.SingleComparesAlike | contrib/concurrentqueue/concurrentqueue.h:1905-1938 | dequeue's comparison is dequeue_bulk's, so a single dequeue is a bulk dequeue of one |
| OptimisticDequeue.GrantIsCovered | contrib/concurrentqueue/concurrentqueue.h:2203-2206 | what the second comparison grants is covered by published items: the overcommit known to the consumer counts failures below its own ticket |
| OptimisticDequeue.StepKeeps | contrib/concurrentqueue/concurrentqueue.h:1901-1998 | every step of the producer and of any consumer keeps the invariant, however wrong the comparison that only decides whether to try |
| OptimisticDequeue.RunKeeps | contrib/concurrentqueue/concurrentqueue.h:2193-2283 | so it holds in every reachable state |
| OptimisticDequeue.EntitledArePublished | contrib/concurrentqueue/concurrentqueue.h:2193-2283 | indices ever granted never outnumber those published |
| OptimisticDequeue.ClaimIsPublishedAndFresh | contrib/concurrentqueue/concurrentqueue.h:2212-2214 | every index taken by headIndex.fetch_add is below the published tail and was taken by nobody before |
| OptimisticDequeue.TakenOnce | contrib/concurrentqueue/concurrentqueue.h:2193-2283 | exactly the indices below headIndex have been taken, each by one thread for good, over any run |
| OptimisticDequeue.RestIsExact | contrib/concurrentqueue/concurrentqueue.h:1901-1998 | at rest the optimistic count less the overcommit is the number of items taken |
| OptimisticDequeue.UncontendedTakesWhatIsThere | contrib/concurrentqueue/concurrentqueue.h:2193-2283 | an uncontended dequeue of at most max takes exactly the next min(max, available) indices; it finds nothing only when there is nothing |
| OptimisticDequeue.CompareExactly | contrib/concurrentqueue/concurrentqueue.h:2195-2201 | the first comparison gives up if and only if the items published are no more than the units handed out less those known to have failed, and else asks for as many as there are beyond them, up to the maximum |
| OptimisticDequeue.DecideExactly | contrib/concurrentqueue/concurrentqueue.h:2203-2206 | the second comparison grants of a ticket exactly the units the published items cover, and the rest goes to the overcommit |
| OptimisticDequeue.TakesWhatIsCovered | contrib/concurrentqueue/concurrentqueue.h:2193-2283 | in every run a call whose ticket is decided claims exactly the units that the items published by then cover, and returns without any only if they cover none |
| ExplicitProducer.WordsCompare | contrib/concurrentqueue/concurrentqueue.h:430-441 | the comparison of wrapped indices is true exactly when the first is behind by less than half the range |
| ExplicitProducer.NeitherWay | contrib/concurrentqueue/concurrentqueue.h:430-441 | counters exactly half the range apart are ordered neither way |
| ExplicitProducer.MaskBack | contrib/concurrentqueue/concurrentqueue.h:1962-1963 | adding an offset that stands for a negative one and masking goes back that many entries, wrapping around the index |
| ExplicitProducer.LookupFinds | contrib/concurrentqueue/concurrentqueue.h:1957-1963 | (front + offset) & (size - 1) is the entry of the block asked for, though the negative difference is divided as an unsigned number |
| ExplicitProducer.IndexReuse | contrib/concurrentqueue/concurrentqueue.h:1880-1886 | reusing the oldest block overwrites its entry of the circular index and leaves the others right |
| ExplicitProducer.IndexInsert | contrib/concurrentqueue/concurrentqueue.h:1880-1886 | a new block takes a free entry |
| ExplicitProducer.EmptyMeansDequeued | contrib/concurrentqueue/concurrentqueue.h:1803-1806 | the flags of a block are all set exactly when all its elements have been dequeued |
| ExplicitProducer.RingInsert | contrib/concurrentqueue/concurrentqueue.h:1849-1857 | linking a block in behind the tail block keeps the circle |
| ExplicitProducer.DataEnqueue | contrib/concurrentqueue/concurrentqueue.h:1893-1896 | constructing an element at the tail appends it to what the blocks hold |
| ExplicitProducer.DataDequeue | contrib/concurrentqueue/concurrentqueue.h:1965-1989 | the element at the head is the oldest, and taking it out leaves the rest |
| ExplicitProducer.ExplicitProducer.CopyEntries | contrib/concurrentqueue/concurrentqueue.h:2315-2323 | the entries in use are copied in order, whatever their position in the old circle |
| ExplicitProducer.ExplicitProducer.NewBlockIndex | contrib/concurrentqueue/concurrentqueue.h:2301-2338 | doubling keeps the structure |
| ExplicitProducer.ExplicitProducer.ReuseBlock | contrib/concurrentqueue/concurrentqueue.h:1803-1813 | the empty block ahead becomes the tail block; the contents do not change |
| ExplicitProducer.ExplicitProducer.InsertBlock | contrib/concurrentqueue/concurrentqueue.h:1841-1859 | a new block is linked in; the contents do not change |
| ExplicitProducer.ExplicitProducer.StartBlock | contrib/concurrentqueue/concurrentqueue.h:1799-1891 | at a block boundary there is a new tail block, or the call is refused: exactly when the oldest block still holds elements and one more block would bring the queue to half the index range; a block is allocated exactly when the one ahead is not empty, and the block index doubled exactly when then none of its entries is free |
| ExplicitProducer.ExplicitProducer.FindSlot | contrib/concurrentqueue/concurrentqueue.h:1799-1891 | there is a slot for the tail, in the tail block or in a new one, except exactly at a boundary where a block is refused |
| ExplicitProducer.ExplicitProducer.Enqueue | contrib/concurrentqueue/concurrentqueue.h:1795-1898 | the element is appended to the contents, or nothing changes, the latter exactly where a block is refused; blocks and block index grow exactly where they must |
| ExplicitProducer.ExplicitProducer.BlockOf | contrib/concurrentqueue/concurrentqueue.h:1954-1963 | the lookup finds the block that holds the head |
| ExplicitProducer.ExplicitProducer.Dequeue | contrib/concurrentqueue/concurrentqueue.h:1901-1998 | the first element is returned and removed exactly when the contents are not empty (and below half the index range); else nothing changes |
| ExplicitProducer.RunCalls | contrib/concurrentqueue/concurrentqueue.h:1795-1998 | any sequence of calls, of any length and through any wrap-around of the indices, returns what a first-in first-out queue returns, as long as at each enqueue that queue is more than a block shorter than half the index range |
| ImplicitHash.NewCapacity | contrib/concurrentqueue/concurrentqueue.h:3401-3404 | doubling ends with the smallest capacity of which the count is below half |
| ImplicitHash.FreeSlot | contrib/concurrentqueue/concurrentqueue.h:3430-3433 | entries carry distinct counts below three quarters of the capacity, so a table is never full |
| ImplicitHash.ProbesEnd | contrib/concurrentqueue/concurrentqueue.h:3350-3387 | a probe that has met only taken slots has made fewer probes than there are slots |
| ImplicitHash.FreeSlotMeansAbsent | contrib/concurrentqueue/concurrentqueue.h:3383-3385 | a free slot on the way shows that the id is not in the table |
| ImplicitHash.AdvanceKeeps | contrib/concurrentqueue/concurrentqueue.h:3326-3476 | every step of every thread keeps the invariant, whatever the others do |
| ImplicitHash.RunKeeps | contrib/concurrentqueue/concurrentqueue.h:3326-3476 | so it holds in every reachable state |
| ImplicitHash.ProbingEnds | contrib/concurrentqueue/concurrentqueue.h:3326-3476 | in every reachable state every table has a free slot and every probe loop under way ends; no access is out of bounds |
| ImplicitHash.FindsItsOwn | contrib/concurrentqueue/concurrentqueue.h:3326-3476 | a call returns the producer made for its thread, which is no other thread's |
| ImplicitHash.KeepsItsOwn | contrib/concurrentqueue/concurrentqueue.h:3326-3476 | through any number of resizes and lazy moves a thread keeps its producer |
| ImplicitHash.LoadFactor | contrib/concurrentqueue/concurrentqueue.h:3326-3476 | in every reachable state fewer than three quarters of the slots of a table are taken |
| ImplicitHash.GrowsInProportion | contrib/concurrentqueue/concurrentqueue.h:3393-3422 | in every reachable state each further table has at least twice the slots of the one before, was made when numbers had been taken for half of those, and has at most four slots for each number, and three more |
| ImplicitHash.ReturnsFromNewest | contrib/concurrentqueue/concurrentqueue.h:3343-3387 | a call that returns leaves the thread's entry in the table that was the newest when the call began, or in a newer one: an entry met in an older table has been moved |
| ImplicitHash.AloneReturns | contrib/concurrentqueue/concurrentqueue.h:3326-3476 | from every reachable state a call that goes on alone returns, with the producer of its thread, unless another thread holds the resize lock while this one has no entry and its number is three quarters of the newest capacity or more |
| Semaphore.StepKeeps | contrib/concurrentqueue/lightweightsemaphore.h:261-405 | every step keeps the accounts of counter, permits, posts owed, sleepers and units |
| Semaphore.RunKeeps | contrib/concurrentqueue/lightweightsemaphore.h:261-405 | so they hold in every reachable state, timeouts included |
| Semaphore.NothingLost | contrib/concurrentqueue/lightweightsemaphore.h:261-405 | sleepers = permits + posts owed + max(0, -m_count); initial + signalled - acquired is in the counter, in permits or owed; acquisitions never exceed signals |
| Semaphore.CallKeeps | contrib/concurrentqueue/lightweightsemaphore.h:255-405 | in every run, what a call under way has in hand and may still take adds up to no more than it was begun with, at every step |
| Semaphore.TakesWhatItAsksFor | contrib/concurrentqueue/lightweightsemaphore.h:290-372 | in every run a call returns at most the units it asked for; a wait without time limit for at least one returns at least one, and so does a timed one unless it timed out |
| Semaphore.TakesWhatIsThere | contrib/concurrentqueue/lightweightsemaphore.h:290-372 | in every run what tryWaitMany returns was, at some moment of the call, min(max, max(0, m_count)), and was taken then, so it fails only where there was nothing; a wait has taken all of it so, or all but the unit it was given |
| Semaphore.UncontendedTry | contrib/concurrentqueue/lightweightsemaphore.h:336-378 | a try that nobody disturbs goes on through spurious failures of the exchange, then takes exactly min(max, max(0, m_count)) units and leaves the counter less by that; it fails only when there is nothing or nothing was asked for |
| Semaphore.AloneReturns | contrib/concurrentqueue/lightweightsemaphore.h:255-372 | a wait that nobody disturbs returns, or comes to where there is nothing to be had: asleep without a permit, or timed out with a permit still to be posted |
| Semaphore.OnePermitEach | contrib/concurrentqueue/lightweightsemaphore.h:396-405 | once signallers have finished with m_count at or above 0 there is one permit for each sleeper |
| Semaphore.SleeperIsServed | contrib/concurrentqueue/lightweightsemaphore.h:278-294 | while a unit is free a sleeper can be woken or a signaller is about to post |
| BlockingQueue.QueueStepKeeps | contrib/concurrentqueue/blockingconcurrentqueue.h:122-385 | every step of the queue and of its semaphore keeps items and units paired |
| BlockingQueue.ItemsAreUnits | contrib/concurrentqueue/blockingconcurrentqueue.h:122-185 | the items are the units not acquired, those acquired by waits under way or by threads still to dequeue, and those whose signal has not begun |
| BlockingQueue.RetryLoopHasItems | contrib/concurrentqueue/blockingconcurrentqueue.h:293-385 | a thread in the retry loop always has the items it is entitled to |
| BlockingQueue.TakesAtMostWhatItAsksFor | contrib/concurrentqueue/blockingconcurrentqueue.h:293-385 | in every run a dequeue is granted at most the items it asked for, at least one if it waits for them without a timeout, and never takes more than granted |
| BlockingQueue.UncontendedDequeue | contrib/concurrentqueue/blockingconcurrentqueue.h:293-385 | a try_dequeue with no other call in progress is granted as many items as there are, up to what it asked for |
| BlockingQueue.CountIsItemsAtRest | contrib/concurrentqueue/blockingconcurrentqueue.h:122-385 | with no call in progress m_count is the number of items |
| JsonMachine.IterativeIsRecursive | contrib/rapidjson/reader.h:558-590 | both parsers, on every text, with every flag setting and every handler: same acceptance, same end position, same events with the same counts |
| JsonMachine.StepKeeps | contrib/rapidjson/reader.h:2001-2150 | every transition of the table-driven machine leaves the same parse to be done as the recursive descent has at that place |
| JsonMachine.LoopIsRest | contrib/rapidjson/reader.h:2182-2214 | the machine's loop completes the parse the recursive descent has still to do, from every state and stack |
| JsonMachine.ValueLeaves | contrib/rapidjson/reader.h:1834-1996 | where the table expects a value, scalars are consumed and containers opened as ParseValue does |
| JsonMachine.CompoundOpens | contrib/rapidjson/reader.h:2008-2033 | opening a container pushes the state the recursion would return to |
| JsonMachine.CloseLeaves | contrib/rapidjson/reader.h:2070-2128 | closing one pops it, with the same member and element count |
| JsonReader.Reader.SkipWhitespaceAndComments | contrib/rapidjson/reader.h:711-736 | leaves the stream where the reference does, or fails on an unclosed comment |
| JsonReader.Reader.ParseHex4 | contrib/rapidjson/reader.h:906-925 | four hexadecimal digits, or an error |
| JsonReader.Reader.ParseStringToStream | contrib/rapidjson/reader.h:991-1060 | escapes, surrogate pairs and plain units put what the reference puts, up to the closing quote |
| JsonReader.Reader.TakeDigits | contrib/rapidjson/reader.h:1476-1565 | an integer is accumulated without passing the machine word: full exactly when the next digit would |
| JsonReader.Reader.ParseInteger | contrib/rapidjson/reader.h:1476-1572 | the digits' value in 32 bits, else in 64 bits, else given up to a double, at the exact limits for either sign |
| JsonReader.Reader.ParseNumber | contrib/rapidjson/reader.h:1460-1738 | position, event and failure of a number are those of the reference |
| JsonReader.Reader.ParseObject | contrib/rapidjson/reader.h:740-805 | refines the reference, trailing commas and comments included |
| JsonReader.Reader.ParseArray | contrib/rapidjson/reader.h:808-853 | refines the reference |
| JsonReader.Reader.ParseValue | contrib/rapidjson/reader.h:1742-1755 | refines the reference |
| JsonReader.Reader.Parse | contrib/rapidjson/reader.h:558-590 | refines the reference: outcome, end position and events |
| JsonReader.Reader.Transit | contrib/rapidjson/reader.h:2001-2150 | refines one transition of the machine on the stack |
| JsonReader.Reader.IterativeParse | contrib/rapidjson/reader.h:2182-2214 | outcome, end position and events are those of the recursive parser |
| JsonGrammar.DigitsEnd | contrib/rapidjson/reader.h:1476-1572 | the digits are taken to the first character that is none |
| JsonLexis.SkipsBlank | contrib/rapidjson/reader.h:711-736 | white space and comments up to a place where nothing blank begins are skipped |
| JsonLexis.SkippedIsBlank | contrib/rapidjson/reader.h:711-736 | and what is skipped is white space and comments, the last of which may be a line comment that ends with the text |
| JsonLexis.CharsAreRead | contrib/rapidjson/reader.h:991-1060 | the characters of a string as the grammar has them - plain ones, the short escapes, four hexadecimal digits of either case, surrogate pairs - are read as the bytes they stand for |
| JsonLexis.ReadIsChars | contrib/rapidjson/reader.h:991-1060 | and whatever is read as a string is spelled so |
| JsonLexis.Utf8IsOctets | contrib/rapidjson/encodings.h:102-121 | a code point is put as the octets of the table of RFC 3629, section 3, and as no others |
| JsonLexis.ReadIsNumber | contrib/rapidjson/reader.h:1460-1738 | whatever is read as a number is one of the grammar: an integer that fits 64 bits, sent by its value, or one with a fraction, an exponent or more digits |
| JsonLexis.IntegerIsRead | contrib/rapidjson/reader.h:1460-1738 | every integer that fits 64 bits, with no digit, point or exponent behind it, is read |
| JsonLexis.RealIsRead | contrib/rapidjson/reader.h:1460-1738 | and so is every other number that is not out of range |
| JsonSpelled.IntegerIsSentAs | contrib/rapidjson/reader.h:1722-1736 | an integer is sent as the 32-bit type of its sign if it fits that, else as the 64-bit one |
| JsonSpelled.ValueIsRead | contrib/rapidjson/reader.h:1742-1755 | whatever spells a value in the grammar, wherever it stands, is read as that value |
| JsonSpelled.SpelledIsAccepted | contrib/rapidjson/reader.h:558-590 | a text that spells a value is accepted to its end by the recursive parser, and its events describe that value |
| JsonSpelled.FrontIsAccepted | contrib/rapidjson/reader.h:558-590 | with kParseStopWhenDoneFlag a text that begins with a value is accepted, if what follows does not go on a number |
| JsonSpelled.AcceptsExactly | contrib/rapidjson/reader.h:558-590 | without that flag both parsers accept a text, with a handler that refuses nothing, if and only if it spells a value up to its first NUL (RFC 4627, section 2, with comments, trailing commas and escaped apostrophes exactly where the flags allow them), and the events describe every value it spells |
| JsonText.WritesValue | contrib/rapidjson/writer.h:182-252 | wherever the writer accepts a value, the value's events put separator and text of the value and count it once |
| JsonText.WritesDocument | contrib/rapidjson/writer.h:182-252 | a fresh writer given a value's events ends complete, with the value's text |
| JsonLayout.PrettyIsFormatted | contrib/rapidjson/prettywriter.h:208-255 | what PrettyWriter writes is what Writer writes, broken into lines by a formatter that sees brackets, commas and colons only: one level of indentation for each open bracket, nothing inside empty pairs, arrays on one line where that is asked for |
| JsonShortest.WrittenSpells | contrib/rapidjson/writer.h:182-252 | what either writer writes spells the value in the grammar |
| JsonShortest.CompactIsShortest | contrib/rapidjson/writer.h:182-252 | no text that spells a value is shorter than what Writer writes for it |
| JsonShortest.HexIsUpper | contrib/rapidjson/writer.h:382-391 | hexadecimal digits of an escape are in upper case |
| JsonText.WritesSame | contrib/rapidjson/writer.h:313-345 | integers of equal value are written alike |
| JsonText.CloseAfter | contrib/rapidjson/writer.h:231-252 | opening, filling and closing a container is one value for the level around it |
| JsonWriter.Writer.Prefix | contrib/rapidjson/writer.h:473-491 | separators and counts of the level on top |
| JsonWriter.Writer.PrettyPrefix | contrib/rapidjson/prettywriter.h:208-250 | separators, line breaks and indentation of the level on top |
| JsonWriter.Writer.WriteIndent | contrib/rapidjson/prettywriter.h:252-255 | one run of the indent character for each level |
| JsonWriter.Writer.WriteString | contrib/rapidjson/writer.h:377-448 | quotes, and every unit with the escape it needs |
| JsonWriter.Writer.EndObject | contrib/rapidjson/prettywriter.h:137-155 | a closing brace, on its own line after members |
| JsonWriter.Writer.EndArray | contrib/rapidjson/prettywriter.h:163-179 | a closing bracket, on its own line after elements |
| JsonRoundTrip.ReadsString | contrib/rapidjson/reader.h:991-1060 | every string of arbitrary bytes, escaped and quoted, is read back |
| JsonRoundTrip.ReadsNumber | contrib/rapidjson/reader.h:1460-1738 | every 64-bit integer is read back by value |
| JsonRoundTrip.ReadsValue | contrib/rapidjson/reader.h:1742-1755 | the text of a value, wherever it stands in a text, compact or with any indent, reads back as the value's events |
| JsonRoundTrip.ReadsText | contrib/rapidjson/reader.h:558-590 | a printed document is accepted to its end by both parsers with any flags |
| JsonRoundTrip.PrintThenParse | contrib/rapidjson/writer.h:182-252 | for every well-formed sequence of events over null, bool, integers, strings, objects and arrays: the writer accepts it, and reading what it wrote gives the same events, integers by value |
| JsonWellFormed.EmitsValue | contrib/rapidjson/reader.h:1742-1755 | what is accepted as a value spells one in the grammar, and the events sent for it are those of that value |
| JsonWellFormed.EmitsMembers | contrib/rapidjson/reader.h:740-805 | what is accepted as members spells them, with a comma behind the last only where the flag allows it; the member count sent with the end of the object is their number, modulo 2^32 |
| JsonWellFormed.EmitsElements | contrib/rapidjson/reader.h:808-853 | what is accepted as elements spells them, likewise; the element count sent with the end of the array is their number, modulo 2^32 |
| JsonWellFormed.AcceptedIsWellFormed | contrib/rapidjson/reader.h:558-590 | whatever text is accepted, of any length and with any flags and handler, spells a value, and its events are those of that value, with right counts |
| JsonDocument.BuildsValue | contrib/rapidjson/document.h:2516-2556 | on any stack, the events of a value push that value and nothing else |
| JsonDocument.BuildsDocument | contrib/rapidjson/document.h:2516-2556 | a well-formed event sequence leaves exactly the value it describes |
| JsonDocument.ParseLeavesOneRoot | contrib/rapidjson/document.h:2338-2348 | after any accepted parse exactly one value is on the stack, as ParseStream asserts, and it is the one the text spells |
| JsonDocument.DocumentRoundTrip | contrib/rapidjson/document.h:1947-1984 | a document printed in any style and parsed is the same document |
| JsonDocument.BuildSame | contrib/rapidjson/document.h:2524-2530 | integers of equal value build equal values |
| JsonDocument.Document.EndObject | contrib/rapidjson/document.h:2543-2547 | names and values on top become the members of the object below them |
| JsonDocument.Document.EndArray | contrib/rapidjson/document.h:2551-2555 | the values on top become the elements of the array below them |
| JsonDocument.Document.ParseStream | contrib/rapidjson/document.h:2338-2348 | a root if and only if the text spells a value, and then that value; the stack is empty afterwards |
| JsonDocument.Accept | contrib/rapidjson/document.h:1947-1984 | the handler receives exactly the value's events, up to and including one it refuses |
| JsonValue.NumberEventIsFirst | contrib/rapidjson/document.h:1976-1983 | an integer is visited as the first of Int, Uint, Int64 and Uint64 that holds it |
| JsonDocument.Document.HandleAll | contrib/rapidjson/document.h:2516-2556 | the handler functions, run on the events of a value, leave that value and an empty stack |
| JsonDocument.Replay | contrib/rapidjson/document.h:2516-2556 | a document built from any well-formed sequence of events and visited with Accept replays that sequence, integers by value |
| JsonDocument.PrintAndParse | contrib/rapidjson/document.h:1947-1984 | Accept into a writer, the reader on what was written, the DOM builder on what was read: the same document, in any style, by either parser |
| Utf8Encoding.DecodedIsEncoded | contrib/rapidjson/encodings.h:146-176 | what Decode accepts is the shortest encoding of a scalar value (RFC 3629, section 4): no overlong form, no surrogate, nothing beyond 10FFFF |
| Utf8Encoding.EncodedIsDecoded | contrib/rapidjson/encodings.h:102-121 | every scalar value, encoded, is decoded again wherever it stands |
| JsonAscii.WriteString | contrib/rapidjson/writer.h:377-448 | succeeds exactly where every byte beyond 7F at which the string is read starts a decodable sequence, and puts the escapes; the last sequence may go on behind the string |
| JsonAscii.OnlyAscii | contrib/rapidjson/writer.h:398-430 | everything put is ASCII |
| JsonAscii.AsciiIsAlike | contrib/rapidjson/writer.h:398-446 | a string of ASCII characters is written as for a Unicode target |
| JsonAscii.WritesWellFormed | contrib/rapidjson/writer.h:398-446 | the writer succeeds if and only if the string, or the string with some of what stands behind it, is well-formed UTF-8 |
| JsonAscii.WritesTerminated | contrib/rapidjson/writer.h:398-446 | with a NUL behind the string: if and only if the string is |
| JsonAscii.DecodesBehind | contrib/rapidjson/writer.h:398-430 | a lead byte alone, which is not well formed, is written when a continuation byte stands behind it |
| JsonAscii.ReadsCode | contrib/rapidjson/reader.h:1022-1036 | an escaped code point, surrogate pair included, reads back as its UTF-8 bytes |
| JsonAscii.AsciiRoundTrip | contrib/rapidjson/reader.h:906-925 | the ASCII text of every well-formed UTF-8 string, whatever stands behind it, reads back as exactly its bytes |
| JsonPointer.PointerRoundTrip | contrib/rapidjson/pointer.h:1001-1033 | Parse of Stringify gives the pointer back: names, lengths, indices; likewise for the URI fragment wherever StringifyUriFragment succeeds; Stringify always succeeds (RFC 6901, sections 3 and 6) |
| JsonPointerText.PlainNameText | contrib/rapidjson/pointer.h:1012-1019 | a name is written with each tilde replaced by ~0 and each slash by ~1 (RFC 6901, section 3) |
| JsonPointerText.UriNameText | contrib/rapidjson/pointer.h:1012-1029 | for the fragment: letters, digits, hyphen, point and underscore stand for themselves, tildes and slashes are escaped, every other byte is a percent sign and two digits; written if and only if the name is well-formed UTF-8 |
| JsonPointerText.PlainSegment | contrib/rapidjson/pointer.h:926-942 | a segment is read as its ~1 replaced by a slash and then its ~0 by a tilde, and refused if and only if some tilde is not followed by 0 or 1 |
| JsonPointerText.UriSegment | contrib/rapidjson/pointer.h:901-942 | a segment of a fragment is read if and only if it percent-decodes to well-formed UTF-8 and every tilde is followed by a plain 0 or 1; its name is those bytes with the escapes replaced |
| JsonPointerText.TokensAreSegments | contrib/rapidjson/pointer.h:894-980 | a pointer is parsed if and only if each of the segments between its slashes is a name, and its tokens are those names in order |
| JsonPointerText.PlainPointer | contrib/rapidjson/pointer.h:863-993 | a pointer that is no fragment is parsed if and only if it is empty or begins with a slash and every tilde in it is followed by 0 or 1; its names are the segments with the escapes replaced |
| JsonPointerText.ParsesExactly | contrib/rapidjson/pointer.h:883-894 | a pointer behind a number sign is read as a fragment, any other as plain; each must be empty or begin with a slash, and all its segments must be names |
| JsonPointerText.PointerIsText | contrib/rapidjson/pointer.h:1001-1033 | Stringify writes a slash and the escaped name for each token; StringifyUriFragment a number sign before that, with percent encoding, if and only if all names are well-formed UTF-8 |
| JsonPointerText.NumberIsNumeral | contrib/rapidjson/pointer.h:957-978 | a name is taken for a number if and only if it is a decimal numeral without leading zeros; the numeral of n has index n if and only if n fits SizeType |
| JsonPointer.ParsedIsConsistent | contrib/rapidjson/pointer.h:863-993 | every pointer Parse gives is one of those: its indices are the ones of its names |
| JsonPointer.ReadsName | contrib/rapidjson/pointer.h:901-955 | a name written with its escapes is read back, up to the next slash or the end |
| JsonPointer.ReadsSequence | contrib/rapidjson/pointer.h:1052-1072 | a percent-encoded UTF-8 sequence is decoded to its bytes |
| JsonPointer.IndexIsValue | contrib/rapidjson/pointer.h:965-978 | the index of a number is its value if and only if that fits SizeType |
| JsonPointer.OverflowNoticed | contrib/rapidjson/pointer.h:965-976 | the overflow test m < n stops the conversion if and only if some prefix of the digits is, modulo 2^32, below the one before it |
| JsonPointer.OverflowMissed | contrib/rapidjson/pointer.h:969-973 | a number the test misses: 5000000000 becomes index 705032704 |
| JsonPointer.Pointer.ValidatePercent | contrib/rapidjson/pointer.h:905-913 | Validate over the decoding stream accepts and puts exactly a percent-encoded sequence, inside the buffer |
| JsonPointer.Pointer.ParseName | contrib/rapidjson/pointer.h:901-955 | one name goes to the buffer, earlier names are kept, and the buffer never needs more than the source length |
| JsonPointer.Pointer.IndexFor | contrib/rapidjson/pointer.h:957-978 | the index of the name in the buffer |
| JsonPointer.Pointer.ParseTokens | contrib/rapidjson/pointer.h:894-980 | all tokens, each in its slot |
| JsonPointer.Pointer.Parse | contrib/rapidjson/pointer.h:863-993 | fails exactly where the reference does, else holds its tokens; one slot for each slash, one name character for each source character suffice |
| JsonPointer.Pointer.Stringify | contrib/rapidjson/pointer.h:1001-1033 | the text of the pointer, or failure exactly where a name to be percent-encoded is not UTF-8 |

## Left out

LZ4:

- Lz4Limited.CompressLimited: where the source would write behind the buffer the method stops with `overrun`, and so do the methods that call it; which of the sources of 134665 bytes or more lead there is stated of those of equal bytes only.
- Lz4Decoder.DecompressSafe: the text is compared only where every offset is at least 1; what a zero offset copies depends on what the buffer held before.
- Acceleration factors other than 1 (the only one LZ4_compress_default uses), dictionaries, streaming state, partial decoding, LZ4_decompress_fast, and the 32-bit and big-endian variants.
- Buffer sizes are the lengths of the arrays; sizes passed as negative numbers are not modelled.
- Lz4Hc.HashChain.FindBestMatch: positions must not have been inserted beyond ip before the call; the wider search in both directions, the lazy parse that chooses among matches and dictionaries are not modelled.
- Lz4Hc.EncodeSequence: with an output limit it stops with `Overrun` where the wild copy of a long literal run or a long match may not fit; LZ4HC_encodeSequence goes on.

moodycamel queue:

- Memory orders: every atomic access is sequentially consistent.
- OptimisticDequeue.StepKeeps: a step whose deciding comparison is of counters 2^63 or more apart is excluded by InRange, since their words do not order them; nothing else is.
- OptimisticDequeue.RunKeeps: runs with such a step are excluded.
- Allocation failure, exceptions of element constructors, failed bulk enqueues, MAX_SUBQUEUE_SIZE, token rotation and the scoring of producers.
- ExplicitProducer: enqueue_bulk and dequeue_bulk on blocks, and blocks taken from the pool or the free list; blocks are kept in a sequence and named by position, so pointer aliasing is not captured.
- ImplicitHash.FindsItsOwn: threads that exit and hand their producer on are not modelled.
- Semaphore: the operating system's semaphore is a permit counter that may be waited on, tried, timed out and posted; m_count does not wrap around.
- BlockingQueue: the inner queue is a number of items, from which a try may take fewer than asked for, even none.

RapidJSON:

- Doubles: strtod and dtoa are not part of this model.  A double is kept as its text; `tooBig` stands for the reader's range check.  Lemmas about the writers are about values without doubles; those about the reader and the DOM include them.
- NaN and infinity, numbers as strings, in-situ parsing, SIMD scanning, parsing flags that validate the encoding, and encodings other than UTF-8 and ASCII.
- Parse error codes and offsets: the two parsers report different ones for the same text.
- IterativeParseNext, the parser stopped between tokens.
- JsonReader.Reader.ParseNumber: a double's event holds its spelling, and whether it is too big is the oracle `tooBig`.
- JsonReader.Reader.ParseStringToStream: the string is collected by itself, not on the stack shared with the frames; a frame is a pair of state and count.
- JsonWriter: Writer and PrettyWriter are one class with a style; RawValue, RawNumber and maximal decimal places are not modelled; itoa is decimal rendering.
- JsonDocument.Document.ParseStream: the handler functions run on the events after the parse instead of during it, which is the same because they never refuse; texts of 2^32 characters or more are excluded.
- JsonDocument.ParseLeavesOneRoot: texts of 2^32 characters or more, whose 32-bit counts may wrap around, are excluded.
- JsonSpelled.AcceptsExactly: not for kParseStopWhenDoneFlag, with which what follows the root is not looked at; FrontIsAccepted and JsonWellFormed.AcceptedIsWellFormed say what holds then.
- JsonShortest.WrittenSpells: texts of 2^32 characters or more are excluded.
- Allocators, ownership, 48-bit pointers, and the operations that change a document.
- JsonAscii.WriteString: a string is the memory it starts in and its length; behind that memory a NUL is read.
- JsonPointer: resolution of a pointer in a document (Get, Set, Create, Erase) and parse error codes.

CityHash, the ClickHouse client's sockets and wire format, OS semaphores' own code, logging and configuration are not modelled.
