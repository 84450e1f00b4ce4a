# Verification of releveldb

This project models the parts of releveldb, and of the copy of Google Test and Google Mock it
is built with, whose correctness is not obvious from reading, and proves what they are for.

| module | what it models |
|---|---|
| `ConcurrentSkipList` | the skip list under one inserting writer and any number of readers, one shared access a step |
| `SkipList` | the same list as a heap structure, used by one thread |
| `BipartiteMatching` | Google Mock's maximum matching of elements and matchers |
| `Coding` | fixed-width integers and varints, down to shifts and bitwise or |
| `Block`, `BlockBounds`, `BlockBuilder` | table blocks, their iterator on well-formed and on arbitrary bytes, and a reference encoder |
| `Comparator`, `DBFormat` | byte order, internal keys, key shortening |
| `SimpleRegex` | Google Test's regular expressions: validator, matcher, full match |
| `BackgroundQueue`, `MmapLimiter` | the background work queue and the limit on mapped files, as step machines |
| `Arena` | the bump allocator |
| `LehmerRandom` | the random number generator |
| `Arithmetic`, `Wrappers`, `Runs` | word sizes, division facts, optional values and runs of step machines, used by the others |

Classes and methods stand for source that updates objects and arrays in place; the two
protocols and the reader/writer list are step machines over values. Where a method is proved
against a specification function (`Block.Iter.Seek` against `Block.SeekCursor`, say), the
lemmas beside it say what the source promises about that function.

Four places where the code does not do what is promised are stated as they are, with the
exact condition under which the promise holds:

* An entry header of a block is accepted when its two lengths wrap around in their 32-bit sum.
  The value of such an entry, and of no other, lies outside the block (`Block.ParseAdvances`,
  `BlockBuilder.WrappingValueLiesOutside`). `Seek` reads outside the block exactly when its linear
  scan copies a key that reaches past the end, or its binary search comes to such a key and the
  comparator reads it as far as that (`Block.SeekEnds`, `BlockBuilder.WrappingKeyReadsOutside`,
  `BlockBuilder.OnlyEmptyTargetStaysInside`). The bytewise comparator reads as many bytes as the
  shorter string has (`Block.BytewiseProbe`). Where `Seek` stays inside, what follows the block in
  memory makes no difference (`BlockBounds.SeekIgnoresRest`).
* The second assertion of `InternalKeyComparator::FindShortestSeparator` asks for more than the
  interface of the user comparator promises when the user key of start is not before that of
  limit (`DBFormat.AssertionHoldsExactly`). Over the bytewise comparator it always holds.
* `RE::FullMatch` of a regular expression that ends in an escaped dollar sign accepts strings of
  which only a prefix matches (`SimpleRegex.FullMatchExact`, `SimpleRegex.EscapedDollarExample`).
* `Arena::AllocateAligned` adds the slop to the request in 64 bits, and if that wraps it returns
  a range that lies in no block (`Arena.Arena.AllocateAligned`, `Arena.WrappingRequest`).

## Model

| member | source | states |
|---|---|---|
| ConcurrentSkipList.Linearizable | db/SkipList.h:99-183 | every run of one writer and any number of readers is, call for call and return for return, a run of an atomic set in which each operation takes effect at one instant between its call and its return |
| ConcurrentSkipList.StepRefines | db/SkipList.h:99-183 | forward simulation for one step: it is invisible, or it is one call, one return or one whole operation of the atomic set |
| ConcurrentSkipList.StepKeepsInv | db/SkipList.h:109-183 | every shared access of either side keeps all levels sorted and linked, and membership changes only at the level-0 SetNext of Insert, by exactly the new key |
| ConcurrentSkipList.RunKeepsInv | db/SkipList.h:99-183 | the invariant holds at every state of every run, so no access ever falls outside a node |
| ConcurrentSkipList.AnswerWasMembership | db/SkipList.h:32-33 | the answer of a Contains call was membership of its key at some state during the call |
| ConcurrentSkipList.ReaderMoveKeepsReader | db/SkipList.h:146-183 | a reader keeps standing on a linked node before its key, and its last level-0 load answers membership at that moment |
| ConcurrentSkipList.SpliceKeepsLevels | db/SkipList.h:131-135 | linking a node after its predecessor leaves every level in strict key order, each pointer leading to the next larger key |
| ConcurrentSkipList.FillingKeepsWriter | db/SkipList.h:120-123 | above max_height_ the head precedes every key, so the prev entries Insert fills in are right |
| ConcurrentSkipList.ReaderMakesProgress | db/SkipList.h:155-182 | every load of a reader answers, goes down a level, or leaves strictly fewer nodes ahead on its level |
| ConcurrentSkipList.LoadsBounded | db/SkipList.h:145-182 | however a call of Contains is interleaved, it makes at most one load for each of the twelve levels and one for each smaller key inserted by then, can always make the next, and has come down every level that was in use when it answers |
| ConcurrentSkipList.InsertBounded | db/SkipList.h:109-136 | however readers interleave, an Insert takes at most one load for each level and each smaller key, four steps, and three for each level of its node, and can always take the next; when it is done a node of the height asked for holds the key on all its levels and max_height_ is raised to it |
| ConcurrentSkipList.EveryCallIsAccepted | db/SkipList.h:25-33 | a reader may always call, and the writer with every height from 1 to 12 and every key not in the set |
| ConcurrentSkipList.ChainIsSortedLevel | db/SkipList.h:145-182 | following the pointers of any level at any moment ends, and meets exactly the linked nodes in strictly ascending order |
| ConcurrentSkipList.LevelsNest | db/SkipList.h:145-182 | at any moment each level is a sorted part of the level below and holds only nodes tall enough for it |
| ConcurrentSkipList.ContentsAreLevelZero | db/SkipList.h:32-33 | the set Contains answers for is what level 0 holds |
| SkipList.List.constructor | db/SkipList.h:196-211 | the new list is valid and empty with height 1 |
| SkipList.List.FindGreaterOrEqual | db/SkipList.h:58-62 | returns the node with the least key at or after the query, or null, and fills prev with the predecessor on every level in use |
| SkipList.List.Contains | db/SkipList.h:32-33 | true exactly when the key is in the set of inserted keys |
| SkipList.List.InsertWithHeight | db/SkipList.h:109-136 | with any height from 1 to 12: one new node of that height, the key added to the set, max_height_ raised if needed, every level again in order |
| SkipList.List.Insert | db/SkipList.h:118-136 | the same with the source's height 5 |
| SkipList.List.LinkNode | db/SkipList.h:130-135 | the linking loop puts the new node on every level up to its height and changes no height |
| SkipList.SpliceLevel | db/SkipList.h:131-135 | linking after the predecessor keeps a level complete and sorted with the new node added |
| BipartiteMatching.MaxBipartiteMatchState.TryAugment | libs/googlemock/src/gmock-matchers.cc:259-285 | terminates; on failure nothing changed and the newly seen right nodes are matched and closed under neighbours; on success exactly the searched node became matched, and at top level the two vectors are mutually referent again |
| BipartiteMatching.Relink | libs/googlemock/src/gmock-matchers.cc:277-282 | one step of unwinding repairs the dangling entry it finds and leaves at most its own |
| BipartiteMatching.ExchangeAroundSeen | libs/googlemock/src/gmock-matchers.cc:211-221 | after a failed search any matching can be exchanged for one at least as large that does not use the searched node: why one try is enough |
| BipartiteMatching.FailureKeepsBound | libs/googlemock/src/gmock-matchers.cc:211-221 | a failed search leaves the current matching maximum with the searched node counted in |
| BipartiteMatching.SuccessKeepsBound | libs/googlemock/src/gmock-matchers.cc:211-221 | a successful search adds one pair and the matching stays maximum |
| BipartiteMatching.MaxBipartiteMatchState.Compute | libs/googlemock/src/gmock-matchers.cc:206-238 | every pair of the result is set in the matrix, each left node occurs at most once and in order, and no matching of the graph is larger |
| BipartiteMatching.FindMaxBipartiteMatching | libs/googlemock/src/gmock-matchers.cc:307-310 | returns a maximum matching |
| BipartiteMatching.CoverIffFullSize | libs/googlemock/src/gmock-matchers.cc:332-333 | a maximum matching has as many pairs as matchers exactly when some matching covers every matcher |
| BipartiteMatching.FindPairing | libs/googlemock/src/gmock-matchers.cc:328-357 | true exactly when every matcher can be given an element of its own that the matrix says it matches |
| BipartiteMatching.CoverIffAssignment | libs/googlemock/src/gmock-matchers.cc:328-344 | some matching covers every matcher exactly when every matcher can be given an element of its own that the matrix says it matches |
| Coding.BitOrDisjoint | db/Coding.cpp:36-38 | or of numbers without common bits is their sum, the fact every decoder here relies on |
| Coding.GetVarint32PtrFallback | db/Coding.cpp:27-44 | succeeds exactly when a byte below 128 occurs among the first five available, with the groups' sum modulo 2^32 and the position after that byte |
| Coding.GetVarint32Ptr | db/Coding.h:54-65 | the fast path agrees with the loop on every input |
| Coding.GetVarint64Ptr | db/Coding.cpp:46-61 | the same for ten bytes modulo 2^64 |
| Coding.VarintLengthUnique | db/Coding.cpp:31-42 | the varint at a position is unique: the decoders stop at the first byte below 128 |
| Coding.VarintLimits | db/Coding.cpp:31-55 | what is accepted is exactly a varint of at most five bytes in 32 bits, ten in 64 |
| Coding.VarintRoundTrip | db/Coding.cpp:27-61 | decoding inverts the reference encoder wherever the bytes stand and whatever follows |
| Coding.VarintsRoundTrip | db/Coding.h:43-48 | both decoders return every value of their width and stop right behind it |
| Coding.EncodeFixed64 | db/Coding.cpp:12-25 | fills eight bytes with the value, low byte first, and leaves the rest of the buffer alone |
| Coding.PutFixed64 | db/Coding.cpp:6-10 | appends those eight bytes |
| Coding.DecodeFixed32IsLittleEndian | db/Coding.h:17-28 | the shifts and ors compute the little-endian value of the four bytes |
| Coding.DecodeFixed64IsLittleEndian | db/Coding.h:30-41 | the same for eight bytes |
| Coding.Fixed64RoundTrip | db/Coding.cpp:6-25 | decoding returns the encoded value, wherever the bytes stand |
| Coding.DecodedBytesRoundTrip | db/Coding.h:30-41 | encoding what was decoded returns the same bytes |
| Block.Block.constructor | db/Block.cpp:51-66 | accepted exactly when the restart array fits, and then (up to 4 GiB) the restart offset is exact |
| Block.AcceptedLayout | db/Block.cpp:51-66 | an accepted block with a restart point gives its iterator a layout that lies inside the bytes |
| Block.DecodeEntry | db/Block.cpp:22-49 | equals three varints and the 32-bit length test on every input; the one-byte fast path takes the same lengths and position |
| Block.AcceptedFits | db/Block.cpp:43-47 | an accepted entry lies inside the entries exactly when its two lengths do not wrap in 32 bits; where the 32-bit offset of its end leads lies inside in any case |
| BlockBuilder.WrappingEntryAccepted | db/Block.cpp:43-47 | a concrete header whose lengths wrap and which is accepted |
| BlockBuilder.WrappingKeyReadsOutside | db/Block.cpp:168-188 | a concrete accepted block in which every search, in any order and for any target, reads key bytes past the end |
| BlockBuilder.WrappingValueLiesOutside | db/Block.cpp:168-188 | a concrete accepted block in which a search ends on an entry whose value lies past the end |
| BlockBuilder.OnlyEmptyTargetStaysInside | db/Block.cpp:97-136 | a concrete accepted block whose binary search comes to a key that reaches past the end: a bytewise search reads outside exactly if the target is not empty, and for the empty target ends on the first entry |
| Block.RestartReady | db/Block.cpp:158-166 | after SeekToRestartPoint(i), whatever the iterator did before, the next entry parsed is the one at restart point i, and it needs no earlier key |
| Block.Iter.ParseNextKey | db/Block.cpp:168-209 | moves the cursor as the specification of parsing says, also behind lengths that wrap, with the corrupt, exhausted and out-of-bounds outcomes |
| Block.ParseAdvances | db/Block.cpp:168-209 | on any bytes a successful parse moves on strictly and stays inside the entries, and its value lies inside exactly when its lengths do not wrap; a failed one leaves the iterator invalid, corrupt or outside exactly when the header says so |
| Block.OutsideWraps | db/Block.cpp:43-47 | only lengths that wrap lead a parse outside the block |
| Block.ParseEntry | db/Block.cpp:168-195 | on a well-formed block parsing undoes prefix compression: the whole key and value of the next entry, and restart_index_ around current_ |
| Block.RestartThenParse | db/Block.cpp:158-195 | restart point i followed by n parses is the n-th entry from that restart point |
| Block.Iter.Seek | db/Block.cpp:96-137 | terminates on any bytes and ends on a key at or after the target or invalid; it reports corruption, or reads outside the block, exactly when a restart point it looks at or an entry it parses is of that kind, a key at a restart point being compared where it stands |
| Block.SeekEnds | db/Block.cpp:96-137 | the same about the specification, for every comparator, target and cursor |
| Block.NarrowFails | db/Block.cpp:97-126 | the binary search fails exactly when one of the restart points it looks at is bad, and in the same way: its header corrupt, or its key read past the end by the comparator |
| Block.FewProbes | db/Block.cpp:97-126 | among at most 2^k restart points the binary search looks at no more than k |
| Block.BytewiseProbe | db/Slice.cpp:12-23 | the bytewise comparator reads past the end at a restart point exactly when the key does within its first bytes, as many as the target has |
| BlockBounds.SeekIgnoresRest | db/Block.cpp:96-137 | a search that does not read outside goes the same way whatever follows the block in memory |
| Comparator.PeekIsOrder | db/Slice.cpp:12-23 | what a comparator finds from the first bytes of a slice is right whatever the others are |
| Comparator.BytewiseIsCoherent | db/Slice.cpp:12-23 | the bytewise comparator decides by the bytes that memcmp is given, and more of the slice changes nothing |
| Block.ScanParseFails | db/Block.cpp:128-136 | the linear scan fails exactly when some number of entries with smaller keys is followed by a bad one |
| Block.SafeForEverySearch | db/Block.cpp:96-137 | a condition on the block alone under which no search with any comparator reads outside it |
| Block.SeekRefinesLinearScan | db/Block.cpp:96-137 | on a well-formed block Seek stops exactly where a linear scan of the entries stops, with that entry's full key and value, or past the end exactly when every key is smaller |
| Block.NarrowFinds | db/Block.cpp:97-126 | the binary search ends at a restart point before which every key is before the target |
| BlockBuilder.EntryRoundTrip | db/Block.cpp:15-49 | an encoded entry decodes to its lengths, key suffix and value |
| BlockBuilder.EncodedBlockIsWellFormed | db/Block.cpp:51-66 | every list of entries with any allowed sharing and restart points encodes to an accepted, well-formed block |
| BlockBuilder.SeekInEncodedBlock | db/Block.cpp:96-137 | searching the encoding of sorted entries finds what scanning the entries finds |
| Comparator.CompareDecides | db/Slice.cpp:9-23 | Compare decides lexicographic order of unsigned bytes, a proper prefix first |
| Comparator.LessTransitive | db/Slice.cpp:9-23 | that order is transitive |
| Comparator.FindShortestSeparator | db/Comparator.cpp:27-49 | for any two strings: unchanged exactly when no byte fits between the two where they first differ; otherwise strictly between start and limit, not longer than start, and as short as any string from start up to limit; the assertion holds |
| Comparator.SeparatorIsLeast | db/Comparator.cpp:41-46 | among the strings between start and limit that are no longer, the separator is the least |
| Comparator.FindShortSuccessor | db/Comparator.cpp:51-63 | the result is at or after key, unchanged exactly for runs of 0xff, shorter exactly when a byte before the last can be raised, and as short as any string at or after key |
| Comparator.SuccessorIsLeast | db/Comparator.cpp:53-60 | among the strings after key that are no longer, the successor is the least |
| DBFormat.AppendInternalKey | db/DBFormat.cpp:16-20 | appends user key and packed number |
| DBFormat.PackedValue | db/DBFormat.cpp:10-14 | packing is 256 times the sequence number plus the type, within 64 bits |
| DBFormat.ParseEncoded | db/DBFormat.cpp:22-37 | parsing returns the encoded key for every user key, every sequence number up to 2^56 - 1 and both types |
| DBFormat.EncodeParsed | db/DBFormat.cpp:22-37 | re-encoding what was parsed returns the same bytes |
| DBFormat.CompareIsKeyOrder | db/DBFormat.cpp:56-72 | on any internal keys Compare is user key ascending, then sequence descending, then type descending |
| DBFormat.InternalOrderIsTotal | db/DBFormat.cpp:56-72 | a total order, given that the user order is one |
| Comparator.BytewiseIsTotalOrder | db/Comparator.cpp:18-20 | the bytewise order is one |
| Comparator.BytewiseKeepsPromise | db/Comparator.h:31-41 | the bytewise comparator keeps everything the interface promises of its three functions |
| DBFormat.BytewiseIsTransitive | db/Comparator.cpp:18-20 | and so fit for searching blocks |
| DBFormat.InternalOrderIsTotalOrder | db/DBFormat.cpp:60-72 | the internal order, with strings too short for a number first, is total on all strings and fit for searching blocks |
| DBFormat.InternalIsCoherent | db/DBFormat.cpp:60-72 | the internal comparator decides by what the user comparator reads and, if the user keys are equal, by the number at the end |
| DBFormat.SeekInternalKey | db/Block.cpp:96-137 | a search for an internal key in a block of them ends where a linear scan does, over every user comparator |
| DBFormat.SeekKeyIsFirst | db/DBFormat.cpp:89-91 | in every user order the largest sequence number with the seek type comes first among the keys of a user key |
| DBFormat.FindShortestSeparator | db/DBFormat.cpp:78-96 | for any user comparator: the first assertion never fails, and unless the second does the result is start, or shorter, strictly between start and limit, and the first internal key of its user key; no assertion fails if the comparator keeps its promise and the user key of start is before that of limit |
| DBFormat.AssertionHoldsExactly | db/DBFormat.cpp:92-93 | the second assertion holds for every comparator of an order that keeps its promise exactly when the user key of start is before that of limit or no shorter string is larger |
| DBFormat.BytewiseSeparator | db/DBFormat.cpp:78-96 | over the bytewise comparator no assertion ever fails, for any two keys, and the key changes exactly when the user key gets shorter |
| DBFormat.SeparatorSeparates | db/DBFormat.cpp:78-96 | in every user order: with such a result, keys up to start stay at or before it and keys from limit on stay after it |
| DBFormat.FindShortSuccessor | db/DBFormat.cpp:98-110 | for any user comparator the assertion never fails; the result is key, or shorter, after key, and the first internal key of its user key; it changes exactly when the user comparator returns a shorter, larger string |
| DBFormat.SeekKeyBytes | db/DBFormat.cpp:89-91 | the bytes that a shortened key ends in: type 1 and then seven times 255 |
| DBFormat.BytewiseSuccessor | db/DBFormat.cpp:98-110 | over the bytewise comparator that is when a byte before the last is not 0xff |
| DBFormat.InternalKey.constructor | db/DBFormat.h:129-131 | parses back to the parts it was made from, and UserKey gives the user key |
| SimpleRegex.ValidateRegex | libs/googletest/src/gtest-port.cc:681-735 | accepts exactly the strings that some syntax tree is written as |
| SimpleRegex.MatchRepetitionAndRegexAtHead | libs/googletest/src/gtest-port.cc:744-766 | true exactly when a repeated atom followed by the rest matches a prefix |
| SimpleRegex.MatchRegexAtHead | libs/googletest/src/gtest-port.cc:771-797 | terminates, and is true exactly when some prefix, the whole string if the end is anchored, is in the language |
| SimpleRegex.MatchRegexAnywhere | libs/googletest/src/gtest-port.cc:807-820 | true exactly when some substring, anchored as the regex says, is in the language |
| SimpleRegex.AtomMatchesClass | libs/googletest/src/gtest-port.cc:652-674 | for every atom and character the matcher decides the class that the atom stands for, by character codes |
| SimpleRegex.ValidEscapesWrittenOut | libs/googletest/src/gtest-port.cc:646-649 | the escapes are those of punctuation, by code, and of eleven letters |
| SimpleRegex.PrefixOfCons | libs/googletest/src/gtest-port.cc:744-766 | a match splits at a length the first item can take |
| SimpleRegex.ScanIffWritten | libs/googletest/src/gtest-port.cc:690-734 | the validator's scan passes exactly the written syntax trees |
| SimpleRegex.FullPatternIsWritten | libs/googletest/src/gtest-port.cc:853-871 | the pattern built for full matches is the tree with both anchors, except that no end anchor is added after an escaped dollar sign |
| SimpleRegex.WritingDeterminesTree | libs/googletest/src/gtest-port.cc:681-735 | no string is the writing of two trees, so a valid regex has one meaning |
| SimpleRegex.PartialMatch | libs/googletest/src/gtest-port.cc:834-838 | true exactly when the regex is valid and some substring is in the language of its tree |
| SimpleRegex.FullMatch | libs/googletest/src/gtest-port.cc:829-832 | what is matched: the whole string, or only a prefix if the regex ends in an escaped dollar sign |
| SimpleRegex.FullMatchExact | libs/googletest/src/gtest-port.cc:829-832 | it decides membership of the whole string for every string exactly when the regex does not end in an escaped dollar sign |
| SimpleRegex.EscapedDollarMisled | libs/googletest/src/gtest-port.cc:868-869 | for every other regex, a string that is accepted and not in the language |
| SimpleRegex.EscapedDollarExample | libs/googletest/src/gtest-port.cc:868-869 | the shortest such regex, an escaped dollar sign alone, and a string its full match accepts |
| BackgroundQueue.EveryRun | db/Env_posix.cpp:550-590 | in every run jobs are executed once each in scheduling order, at most one worker is created, and when the mutex is free and work is queued the worker is awake |
| BackgroundQueue.StepKeepsInv | db/Env_posix.cpp:550-590 | every step keeps mutual exclusion, order, the single worker, and that no wakeup is lost although the signal precedes the push |
| BackgroundQueue.WorkerDrains | db/Env_posix.cpp:575-590 | left alone the worker executes everything that is queued |
| BackgroundQueue.NothingIsStuck | db/Env_posix.cpp:550-590 | from every reachable state every scheduled job can be executed without further calls or spurious wakeups |
| BackgroundQueue.EveryJobIsExecuted | db/Env_posix.cpp:550-590 | in every infinite run that is fair to callers inside the mutex and to the worker, every scheduled job is executed, in its place in the order |
| BackgroundQueue.EveryCallIsExecuted | db/Env_posix.cpp:550-573 | if such a run also lets a caller have the mutex some time, its call returns and the job that the call was made with is executed |
| BackgroundQueue.CallsAreScheduledOnce | db/Env_posix.cpp:550-573 | in every run the scheduled jobs are the jobs of distinct calls, and every call has its job scheduled or still waits for the mutex with it |
| BackgroundQueue.NobodyIsRefused | db/Env_posix.cpp:550-590 | a thread without a call under way may call; one with a call can move, or the holder of the mutex can |
| MmapLimiter.TokensConserved | db/Env_posix.cpp:100-142 | in every interleaving and with every failure, free tokens, mapped files and tokens in hand add up to the limit and the counter never goes negative |
| MmapLimiter.StepKeepsInv | db/Env_posix.cpp:314-340 | every load, store, lock and system call of opening or destroying a file keeps that |
| MmapLimiter.PlainOnlyWhenExhausted | db/Env_posix.cpp:109-123 | a file is opened without mapping, and a denial is decided, only at a moment when every token is out |
| MmapLimiter.MappingTakesToken | db/Env_posix.cpp:321-331 | only a thread that holds a token maps a file, and the file takes the token over |
| MmapLimiter.OpenEnds | db/Env_posix.cpp:314-340 | in every interleaving an open ends after at most twelve more steps: with nothing added and the token back if a system call failed, with one plain file if it saw no token, and otherwise with one mapped file that has cost one token |
| MmapLimiter.DestroyEnds | db/Env_posix.cpp:160-163 | destroying a mapped file takes away that file alone and gives one token back within four steps |
| MmapLimiter.NobodyIsRefused | db/Env_posix.cpp:100-142 | a thread without a call under way may make one; one with a call can move with every outcome, or the holder of the mutex can |
| Arena.Arena.Allocate | db/Arena.h:51-61 | hands out a range inside an owned block, apart from every range handed out before, from the current block if it fits |
| Arena.Arena.AllocateAligned | db/Arena.h:63-80 | the result is 8-aligned and the arena stays valid; no bytes hand out nothing, and a request of at least one byte gets an owned range apart from all others exactly when request plus slop does not wrap in 64 bits |
| Arena.WrappingRequest | db/Arena.h:63-80 | a new arena and two calls that reach such a request: the address returned lies in no block |
| Arena.Arena.AllocateFallback | db/Arena.cpp:22-35 | a request over a quarter block gets a block of its own and leaves the current one alone; others start a standard block, giving up at most 1030 bytes of the old one |
| Arena.Arena.AllocateNewBlock | db/Arena.cpp:37-42 | the usage counter is the sum of block sizes and pointers, modulo 2^64 |
| Arena.UsageIs | db/Arena.cpp:37-42 | what is counted is the sizes of the blocks and eight bytes for each |
| Arena.Arena.constructor | db/Arena.cpp:11-14 | a valid arena with no block |
| LehmerRandom.Random.constructor | db/random.h:19-24 | bad seeds become 1, and every seed is in [1, 2^31 - 2] |
| LehmerRandom.Random.Next | db/random.h:25-45 | computes exactly seed * 16807 mod (2^31 - 1) and keeps the seed in range |
| LehmerRandom.MersenneFold | db/random.h:36-43 | adding the two 31-bit halves keeps the residue |
| LehmerRandom.StepUndone | db/random.h:28-29 | the step has an inverse, multiplication by 1407677000 |
| LehmerRandom.StepInjective | db/random.h:28-29 | so it is injective |
| LehmerRandom.OrderIsPeriod | db/random.h:31-33 | 16807 has multiplicative order exactly 2^31 - 2 |
| LehmerRandom.FullPeriod | db/random.h:31-33 | from any seed the generator is back at it after exactly the multiples of 2^31 - 2 steps |
| LehmerRandom.VisitsEverySeed | db/random.h:31-33 | from any seed the generator reaches every number in [1, 2^31 - 2] within that many steps |

## Left out

- Weak memory: every atomic access is one sequentially consistent step; `db/atomic_pointer.h` is not part of this model.
- Skip-list keys are integers that stand for their rank under the list's comparator, so keys that compare equal are the same key.
- Block.Iter.ParseNextKey: where the source copies key bytes from past the end of the block, the model stops with the status OutOfBounds; what memory holds there is not modelled.
- Block.Iter.Seek: what a comparator reads of a key in the block is a parameter, SliceComparator.peek, given for the bytewise and the internal comparator; where it reads past the end the model stops likewise.
- DBFormat.InternalOrder: strings of fewer than eight bytes, against which the source asserts, are ordered first.
- Block.Iter.constructor: `SeekToFirst`, `SeekToLast`, `Next` and `Prev` are pure virtual in the source, and `NewIterator` has no body.
- BlockBuilder.EncodedBlockIsWellFormed: the repository has no block builder; the encoder is a reference written for the format that the iterator reads.
- Coding.EncodeFixed64: the branch for big-endian machines is modelled; the copy of memory that replaces it on little-endian machines stores the same bytes.
- Arena.Arena.AllocateNewBlock: operator new[] is a parameter, and running out of memory is not modelled; freeing blocks in the destructor is left out.
- Arena.Arena.Allocate: requests of zero bytes, against which the source asserts, are left out.
- SimpleRegex.ValidateRegex: the diagnostics it reports are not modelled; the POSIX implementation of RE is left out.
- BipartiteMatching.FindPairing: the explanations written to the listener are left out, and the matrix is kept as rows instead of one flattened vector.
- BackgroundQueue.StepKeepsInv: failing pthread calls, which abort the process, are left out, and a job is a pair of numbers whose execution is one step.
- MmapLimiter.StepKeepsInv: only the token is modelled; reading files and unmapping are system calls without effect on it.
- `InternalKey::DecodeFrom` and `Clear` assign a string, and `DebugString` prints.
- `Random::Uniform`, `OneIn` and `Skewed`, `Status`, `EscapeString`, logging, file locks, directory calls and time: separate and easy, or foreign calls.
