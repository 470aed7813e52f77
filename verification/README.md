# airnet in Dafny

A Dafny model of the parts of airnet that carry its correctness: the framed protobuf protocol over
the growable network buffer, the blocking queue and lock layer, and the algorithms of the vendored
Google Test and Google Mock that decide what a test run reports. `dafny verify dfyconfig.toml`
checks everything.

| file | models |
|---|---|
| `BipartiteMatching.dfy` | the maximum matching behind `UnorderedElementsAre` |
| `Bytes.dfy`, `Adler.dfy` | 32-bit network byte order; ADLER32 of section 2.2 of RFC 1950 |
| `Buffer.dfy` | the network buffer, as a class over an array that compacts, grows and prepends in place |
| `Framing.dfy`, `Codec.dfy` | incremental parsing of any framed stream; the protobuf codec on the buffer |
| `Regex.dfy` | the simple regular expressions |
| `EditScript.dfy`, `UnifiedDiff.dfy` | edit scripts and the hunks of a unified diff |
| `BlockingQueue.dfy`, `DoubleLock.dfy` | the monitor queue and the ordered double lock, as step systems over any number of threads |
| `Expectations.dfy` | prerequisites, sequences and calls of mock expectations |
| `TestFilter.dfy`, `TestOrder.dfy` | test filters and shards; registration, shuffling and restoring |
| `PrimeTables.dfy` | trial division, the sieve and the hybrid prime table |
| `Options.dfy`, `Sets.dfy`, `Arithmetic.dfy` | what the other modules share |

## How the model reads the source

- The generated protobuf code is a parameter (`Schema`): type names, serialisation and a descriptor
  pool, with no law assumed. Delivery is stated for the messages whose parser undoes their serialiser.
- `ProtobufCodec::Parse` accepts a name length of up to `len - 4`, so the data length it passes on can
  be negative (src/common/net/codec_proto.cpp:186-196). The model keeps this: what the message parser
  does with a negative length is the separate function `parseNegative`. It may return anything, but it sees
  only the frame's bytes and the length: the results about streams assume that such a call never reads
  behind the frame.
- Costs in the edit table are the source's doubles times 100000.
- Threads are step systems: every pthread call, every write to the holder field and every access to the
  deque is one atomic step; spurious wakeups may happen at any time, and a signal may wake more than one
  waiter.
- Unsigned wrap-around is written out where it can show (`ToInt32`, `Random.Generate`); lengths are
  otherwise mathematical integers.
- Random numbers are the source's generator, and the results about shuffling hold for all draws.
- `kDisableTestFilter` and `kDeathTestCaseFilter` are parameters, so the results hold for any such filter.

## Where the code does less than it says

Each of these is a lemma or contract with the exact condition.

- `RE::FullMatch` means "the whole string" exactly for regexes that do not end in an escaped `$`
  (`FullMatchExact`).
- `CalculateOptimalEdits` is documented as optimal. Its scripts are cheapest for all prefixes exactly when
  no cell is tied (`CheapestExactlyWithoutTies`); "aba" to "bab" is tied (`NotAlwaysCheapest`). The script
  returned for two texts is cheapest if their table has no tie; a tie away from the traced path need not
  spoil it (`TieMayBeHarmless`).
- `CreateUnifiedDiff` turns left into right exactly when context was asked for or nothing differs.
- `BlockingQueue` loses no wakeup exactly when items are put one at a time or there is at most one consumer,
  because `putAll` signals a single waiter (`NoLostWakeupExactly`).
- A sender checks neither the frame limit nor an empty type name; a message comes back exactly when it is
  `Deliverable` (`DeliverableExact`). The shortest frame, of an empty name without data, is not even examined
  until another byte arrives (`FrameVerdict`).
- ADLER32 misses an exchange of two different bytes exactly when their distance is a multiple of 65521
  (`ExchangeDetected`).
- `GetNextPrime` gives the next prime exactly for arguments that are not negative, or for -1 through a
  table that holds the prime 2.

## Model

| member | source | states |
|---|---|---|
| BipartiteMatching.MaxBipartiteMatchState.constructor | 3rd_party/googletest/googlemock/src/gmock-matchers.cc:200-204 | every node starts unmatched |
| BipartiteMatching.MaxBipartiteMatchState.TryAugment | 3rd_party/googletest/googlemock/src/gmock-matchers.cc:243-285 | terminates; failure changes no link and leaves a set of right nodes that the search cannot leave; success matches only the start node anew, unmatches nobody on either side, keeps links mutual and on edges, and never enters a closed set |
| BipartiteMatching.MaxBipartiteMatchState.AugmentAll | 3rd_party/googletest/googlemock/src/gmock-matchers.cc:222-230 | one search per left node ends with a closed set of matched right nodes that contains every neighbour of an unmatched left node |
| BipartiteMatching.MaxBipartiteMatchState.Links | 3rd_party/googletest/googlemock/src/gmock-matchers.cc:231-237 | lists exactly the links, each once |
| BipartiteMatching.MaxBipartiteMatchState.Compute | 3rd_party/googletest/googlemock/src/gmock-matchers.cc:206-238 | the answer is a matching and no matching of the graph is larger |
| BipartiteMatching.ClosedSetCertifiesMaximum | 3rd_party/googletest/googlemock/src/gmock-matchers.cc:210-221 | why visiting each left node once is enough: the closed set gives a vertex cover of the size of the matching |
| BipartiteMatching.FindMaxBipartiteMatching | 3rd_party/googletest/googlemock/src/gmock-matchers.cc:307-310 | returns a maximum matching without repeated pairs |
| BipartiteMatching.FindPairing | 3rd_party/googletest/googlemock/src/gmock-matchers.cc:327-357 | true exactly when every matcher can be given its own distinct matching element |
| Bytes.DecodeEncode | src/common/base/endian_ex.h:31-34 | reading back a written 32-bit integer gives its two's complement value |
| Bytes.EncodeDecode | src/common/base/endian_ex.h:46-49 | writing back a read word gives the same four bytes |
| Bytes.MostSignificantFirst | src/common/base/endian_ex.h:31-34 | the first byte on the wire is the most significant |
| Bytes.HalvesOnWire | src/common/base/endian_ex.h:31-34 | the high half of a word travels in the first two bytes |
| Adler.SumAClosed | src/common/net/codec_proto.cpp:45-48 | the low half of the checksum is one plus the sum of the bytes, modulo 65521 |
| Adler.SumBClosed | src/common/net/codec_proto.cpp:45-48 | the high half counts each byte once for every prefix that holds it |
| Adler.AdlerHalves | src/common/net/codec_proto.cpp:45-48 | the checksum has the plain sum in its low 16 bits and the weighted sum in its high 16 bits, each modulo 65521 |
| Adler.SingleByteDetected | src/common/net/codec_proto.cpp:178-182 | changing any one byte changes the checksum, at any length |
| Adler.ExchangeDetected | src/common/net/codec_proto.cpp:178-182 | an exchange of two different bytes changes the checksum iff their distance is not a multiple of 65521 |
| NetBuffer.CopyDown | src/common/net/buffer.h:318-320 | the overlapping copy towards the front delivers the original bytes and touches nothing else |
| NetBuffer.Buffer.constructor | src/common/net/buffer.h:35-43 | a new buffer is empty, with the initial room behind and in front |
| NetBuffer.Buffer.MakeSpace | src/common/net/buffer.h:306-325 | makes room without changing the contents, grows only if compaction cannot suffice, and its own assertion holds |
| NetBuffer.Buffer.EnsureWritableBytes | src/common/net/buffer.h:160-167 | room for len bytes, same contents, nothing moves if there was room |
| NetBuffer.Buffer.HasWritten | src/common/net/buffer.h:175-176 | the bytes written behind the writer index become readable |
| NetBuffer.Buffer.Append | src/common/net/buffer.h:148-153 | contents grow by exactly the bytes |
| NetBuffer.Buffer.Retrieve | src/common/net/buffer.h:84-95 | drops exactly the first len bytes; an emptied buffer returns to kCheapPrepend |
| NetBuffer.Buffer.RetrieveAll | src/common/net/buffer.h:119-123 | empties the buffer |
| NetBuffer.Buffer.RetrieveAsString | src/common/net/buffer.h:130-136 | what is returned and what is left make up the old contents |
| NetBuffer.Buffer.AppendInt32 | src/common/net/buffer.h:181-185 | appends the network-order word |
| NetBuffer.Buffer.PeekInt32 | src/common/net/buffer.h:227-233 | decodes the first four readable bytes |
| NetBuffer.Buffer.ReadInt32 | src/common/net/buffer.h:202-207 | the integer read, encoded again, and the rest make up the old contents |
| NetBuffer.Buffer.Prepend | src/common/net/buffer.h:270-276 | contents get exactly the bytes in front |
| NetBuffer.Buffer.PrependInt32 | src/common/net/buffer.h:253-257 | contents get the network-order word in front |
| NetBuffer.Buffer.Shrink | src/common/net/buffer.h:278-285 | same contents in a fresh array with the reserved room and no more than needed |
| Framing.DrainAppend | src/common/net/codec_proto.cpp:123-150 | later bytes continue where the parser stopped; after an error they only pile up |
| Framing.ChunkingInvisible | src/common/net/codec_proto.cpp:119-153 | for any stable frame recogniser, chunk boundaries change neither messages nor first error nor remainder |
| ProtobufCodec.FillEmptyBuffer | src/common/net/codec_proto.cpp:21-53 | an empty buffer ends up holding exactly the frame; the header always fits in front |
| ProtobufCodec.FrameOnWire | src/common/net/codec_proto.cpp:14-20 | the bytes of a frame: big-endian lengths, the name and its zero, the data, then the weighted and the plain checksum sum as two bytes each |
| ProtobufCodec.ParseFrame | src/common/net/codec_proto.cpp:172-223 | parsing the body of a built frame gives the message back, or the error for the obligation it misses |
| ProtobufCodec.ParseExact | src/common/net/codec_proto.cpp:172-223 | the verdict on every body, built by a peer or not: which bytes are the name and the data, when each error is reported, and that only sealed bodies are taken as messages |
| ProtobufCodec.FrameVerdict | src/common/net/codec_proto.cpp:123-145 | the verdict on a built frame at the front of any stream, for every message that can be sent: waiting, a length error, the body's error, or the message |
| ProtobufCodec.DeliverableExact | src/common/net/codec_proto.cpp:119-153 | a message comes back as itself iff its name is non-empty and registered, its parser undoes its serialiser and its frame is within the limit |
| ProtobufCodec.CorruptByteRejected | src/common/net/codec_proto.cpp:176-182 | changing any single byte after the length header gives a checksum error |
| ProtobufCodec.ExchangedBytesRejected | src/common/net/codec_proto.cpp:176-182 | exchanging two different covered bytes gives a checksum error iff their distance is not a multiple of 65521 |
| ProtobufCodec.NextFrameStable | src/common/net/codec_proto.cpp:123-150 | a verdict never depends on the bytes behind the frame |
| ProtobufCodec.Examine | src/common/net/codec_proto.cpp:125-134 | the tests of one loop round on the real buffer give the frame's verdict |
| ProtobufCodec.ParseMessages | src/common/net/codec_proto.cpp:119-153 | the loop delivers, leaves and reports exactly what draining the byte sequence does |
| ProtobufCodec.ChunkedParsing | src/common/net/codec_proto.cpp:119-153 | for every byte stream and every way to cut it: same messages, first error and remainder as in one piece |
| ProtobufCodec.ChunkedDelivery | src/common/net/codec_proto.cpp:21-53 | however the concatenated frames are cut, exactly the sent messages arrive, in order, with nothing left |
| ProtobufCodec.DamageStopsDelivery | src/common/net/codec_proto.cpp:119-182 | with one byte after a frame's header changed, however the stream is cut, exactly the messages before that frame arrive and the first error is the checksum's |
| ProtobufCodec.ReceiveChunks | src/common/net/codec_proto.cpp:119-153 | alternating Append and ParseMessages on the real buffer gives that session |
| SimpleRegex.ValidEscapesExact | 3rd_party/googletest/googletest/src/gtest-port.cc:635-648 | what may follow a backslash: ASCII punctuation and eleven letters |
| SimpleRegex.EscapeClasses | 3rd_party/googletest/googletest/src/gtest-port.cc:634-668 | every escape spelled out: the classes and their complements, the control characters, and punctuation for itself |
| SimpleRegex.PlainAtoms | 3rd_party/googletest/googletest/src/gtest-port.cc:670 | an unescaped character stands for itself alone, and '.' for all but a newline |
| SimpleRegex.Scan | 3rd_party/googletest/googletest/src/gtest-port.cc:690-734 | the scanning loop agrees with the validity of the whole text |
| SimpleRegex.ValidateRegex | 3rd_party/googletest/googletest/src/gtest-port.cc:679-735 | accepts exactly the renderings of well-formed syntax trees |
| SimpleRegex.RenderInjective | 3rd_party/googletest/googletest/src/gtest-port.cc:679-735 | a valid regex has only one syntax tree |
| SimpleRegex.MatchRepetitionAndRegexAtHead | 3rd_party/googletest/googletest/src/gtest-port.cc:737-766 | true iff some run of the repeated atom, of a length the quantifier allows, is followed by a match of the rest |
| SimpleRegex.MatchRegexAtHead | 3rd_party/googletest/googletest/src/gtest-port.cc:768-797 | true iff a prefix is in the language, ending at the end if anchored; terminates because the regex shrinks |
| SimpleRegex.MatchRegexAnywhere | 3rd_party/googletest/googletest/src/gtest-port.cc:799-820 | true iff some substring is in the language, placed as the anchors demand |
| SimpleRegex.CopyInto | 3rd_party/googletest/googletest/src/gtest-port.cc:865-866 | the copy lands behind what is there |
| SimpleRegex.BuildFullPattern | 3rd_party/googletest/googletest/src/gtest-port.cc:853-871 | the buffer never overflows and holds the anchored text |
| SimpleRegex.FullPatternRendered | 3rd_party/googletest/googletest/src/gtest-port.cc:853-871 | that text is the same tree anchored at both ends, unless the regex ends in an escaped `$` |
| SimpleRegex.RE.constructor | 3rd_party/googletest/googletest/src/gtest-port.cc:840-872 | validity and full pattern belong to the regex |
| SimpleRegex.RE.PartialMatch | 3rd_party/googletest/googletest/src/gtest-port.cc:834-838 | true iff valid and some substring matches |
| SimpleRegex.RE.FullMatch | 3rd_party/googletest/googletest/src/gtest-port.cc:829-832 | true iff valid and the whole string is in the language, for regexes that do not end in an escaped `$` |
| SimpleRegex.FullMatchExact | 3rd_party/googletest/googletest/src/gtest-port.cc:868-869 | full matches mean the whole string for all strings iff the regex does not end in an escaped `$` |
| SimpleRegex.PlainRegexMatchesItself | 3rd_party/googletest/googletest/src/gtest-port.cc:829-832 | a regex without special characters is valid and fully matches exactly its own text |
| EditScript.FillBorders | 3rd_party/googletest/googletest/src/gtest.cc:1035-1044 | the first row and column hold their cells |
| EditScript.FillCell | 3rd_party/googletest/googletest/src/gtest.cc:1048-1069 | a cell follows from its three neighbours and nothing else changes |
| EditScript.FillRow | 3rd_party/googletest/googletest/src/gtest.cc:1047-1070 | a row is completed from the rows above it |
| EditScript.StepBack | 3rd_party/googletest/googletest/src/gtest.cc:1075-1079 | one step back follows the cell's move; no index drops below zero |
| EditScript.Traceback | 3rd_party/googletest/googletest/src/gtest.cc:1073-1082 | the path is the script of the last cell |
| EditScript.CalculateOptimalEdits | 3rd_party/googletest/googletest/src/gtest.cc:1028-1083 | the script consumes left, produces right, matches only equal and replaces only different items; without ties no script is cheaper |
| EditScript.ScriptTransforms | 3rd_party/googletest/googletest/src/gtest.cc:1073-1082 | the script of every cell transforms the two prefixes |
| EditScript.ScriptCost | 3rd_party/googletest/googletest/src/gtest.cc:1046-1082 | every cell is the cost of its traced script |
| EditScript.CostBounds | 3rd_party/googletest/googletest/src/gtest.cc:1035-1071 | a cell lies between the difference and the sum of the lengths |
| EditScript.CostZero | 3rd_party/googletest/googletest/src/gtest.cc:1048-1053 | a cell is zero iff the prefixes are equal |
| EditScript.CheapestExactlyWithoutTies | 3rd_party/googletest/googletest/src/gtest.cc:1055-1069 | all scripts are cheapest iff no cell falls through to a replacement that an addition or a removal undercuts |
| EditScript.NotAlwaysCheapest | 3rd_party/googletest/googletest/src/gtest.cc:1064-1069 | "aba" to "bab" costs three replacements although a removal and an addition suffice |
| EditScript.TieMayBeHarmless | 3rd_party/googletest/googletest/src/gtest.cc:1064-1069 | "ab" to "bab" has a tied cell and still gets a cheapest script |
| EditScript.InternalStrings.GetId | 3rd_party/googletest/googletest/src/gtest.cc:1088-1100 | equal strings get equal ids and different strings different ones |
| EditScript.InternAll | 3rd_party/googletest/googletest/src/gtest.cc:1107-1116 | every line gets its id and earlier ids stay |
| EditScript.SameScripts | 3rd_party/googletest/googletest/src/gtest.cc:1104-1118 | scripts depend only on which items are equal |
| EditScript.CalculateOptimalLineEdits | 3rd_party/googletest/googletest/src/gtest.cc:1104-1118 | the script for the ids is a script for the lines |
| UnifiedDiff.Hunk.FlushEdits | 3rd_party/googletest/googletest/src/gtest.cc:1166-1169 | pending removals go before pending additions |
| UnifiedDiff.Hunk.PushLine | 3rd_party/googletest/googletest/src/gtest.cc:1135-1151 | the line goes to its list and the counters stay exact |
| UnifiedDiff.PushMeaning | 3rd_party/googletest/googletest/src/gtest.cc:1122-1151 | regrouping never changes what the reader of either text sees |
| UnifiedDiff.Hunk.PrintTo | 3rd_party/googletest/googletest/src/gtest.cc:1153-1187 | lines are grouped and the header names the true start and length of each changed side |
| UnifiedDiff.OpenHunk | 3rd_party/googletest/googletest/src/gtest.cc:1218-1223 | start positions never underflow and the context lines are the matches in front of the edit |
| UnifiedDiff.FillHunk | 3rd_party/googletest/googletest/src/gtest.cc:1225-1253 | the hunk shows exactly the edits passed, stops with exactly its context behind the last change, and goes on only where a change is near |
| UnifiedDiff.NextHunk | 3rd_party/googletest/googletest/src/gtest.cc:1211-1260 | the next hunk shows the next span of the script, behind the earlier ones with only matches in between, or only matches remain |
| UnifiedDiff.PatchCorrect | 3rd_party/googletest/googletest/src/gtest.cc:1196-1202 | agreeing hunks turn one text into the other iff both end alike |
| UnifiedDiff.CreateUnifiedDiff | 3rd_party/googletest/googletest/src/gtest.cc:1203-1263 | each hunk shows one span of the computed script with every match in its place; with context, every change is inside a span; the spans have the context around them and lie two contexts apart; printed ranges name the lines shown; applying the hunks turns left into right and back iff there is context or no difference; there are none iff there is no context or no difference |
| UnifiedDiff.SpansDisjoint | 3rd_party/googletest/googletest/src/gtest.cc:1208-1261 | no two hunks show the same edit |
| UnifiedDiff.JoinedExactly | 3rd_party/googletest/googletest/src/gtest.cc:1200-1202 | neighbouring changes share a hunk iff fewer matches lie between them than two contexts take |
| UnifiedDiff.ContextLines | 3rd_party/googletest/googletest/src/gtest.cc:1200-1202 | a hunk starts and ends with as many common lines as the context asks for and the text has |
| BlockingQueue.AlwaysSafe | src/common/base/blocking_queue.h:25-81 | in every state of every run: one owner, a truthful holder, items leave in the order they entered, put inserts its items, take gets one item, after takeAll and clearAll all items inserted so far are removed, nobody pops an empty deque |
| BlockingQueue.PerformedInOrder | src/common/base/blocking_queue.h:25-81 | in every run each put, take, takeAll and clearAll that a thread begins changes the deque exactly once, in program order, except for the one it may still be in |
| BlockingQueue.GoOwnership | src/common/base/mutex.h:76-131 | no step makes the holder field name anybody but the owner |
| BlockingQueue.GoGuarded | src/common/base/blocking_queue.h:39-51 | the while loop's test still holds where it is relied on, also across Wait |
| BlockingQueue.SomebodyMoves | src/common/base/condition.h:25-37 | unless all are done or waiting for items, some thread can take its next step |
| BlockingQueue.ItemsHaveTakers | src/common/base/blocking_queue.h:25-51 | with single puts, while a consumer sleeps the items never exceed the consumers woken plus an owner about to signal or take |
| BlockingQueue.LoneConsumerIsSignalled | src/common/base/blocking_queue.h:25-63 | while the only consumer sleeps, the queue is empty or a signal is about to be sent |
| BlockingQueue.LostWakeup | src/common/base/blocking_queue.h:32-37 | putAll of two items can leave one of two consumers asleep beside an item |
| BlockingQueue.NoLostWakeupExactly | src/common/base/blocking_queue.h:25-63 | wakeups are never lost iff items are put one at a time or there is at most one consumer |
| DoubleLock.AlwaysConsistent | src/common/base/mutex.h:175-212 | in every run a mutex is owned by exactly the thread whose guard holds it, and unlocked by it |
| DoubleLock.NoDeadlock | src/common/base/mutex.h:178-192 | in every run, while any guard exists some thread can take its next step |
| Expectations.Expectation.RetireAllPreRequisites | 3rd_party/googletest/googlemock/src/gmock-spec-builders.cc:95-112 | terminates, retires exactly the transitive prerequisites and keeps the retired set closed |
| Expectations.ClosedHasAncestors | 3rd_party/googletest/googlemock/src/gmock-spec-builders.cc:98-102 | the early return is sound: all prerequisites of a retired expectation are retired |
| Expectations.Expectation.AllPrerequisitesAreSatisfied | 3rd_party/googletest/googlemock/src/gmock-spec-builders.cc:114-125 | true iff all transitive prerequisites are satisfied |
| Expectations.HandleCall | 3rd_party/googletest/googlemock/include/gmock/gmock-spec-builders.h:1188-1217 | handled iff ready; excessive iff beyond the limit; a prerequisite of an expectation that has served a call never handles one; retires on saturation exactly with the last call allowed; the order of calls is kept |
| Expectations.ServedWithinLimit | 3rd_party/googletest/googlemock/src/gmock-cardinalities.cc:77-83 | in a program, who has served a call and never had an excessive one is between one call and the limit, and retired at the limit if it retires on saturation |
| Expectations.CreateExpectation | 3rd_party/googletest/googlemock/include/gmock/gmock-spec-builders.h:1601-1610 | a new expectation without prerequisites keeps the order among the others and is the newest |
| Expectations.AddPrerequisite | 3rd_party/googletest/googlemock/include/gmock/gmock-spec-builders.h:963-974 | exactly that older expectation joins the prerequisites of the newest one, and nobody else is disturbed |
| Expectations.Sequence.AddExpectation | 3rd_party/googletest/googlemock/src/gmock-spec-builders.cc:793-802 | the newest expectation joins behind the last member and gets exactly that prerequisite more |
| Expectations.InSequence | 3rd_party/googletest/googlemock/include/gmock/gmock-spec-builders.h:935-960 | joining any list of sequences keeps all of them in order |
| Expectations.ExpectCall | 3rd_party/googletest/googlemock/include/gmock/gmock-spec-builders.h:1601-1622 | a whole statement adds the expectation to exactly the sequences named and keeps the program's invariant |
| Expectations.SequencePrecedes | 3rd_party/googletest/googlemock/src/gmock-spec-builders.cc:793-802 | every earlier member is a transitive prerequisite of every later one |
| Expectations.CalledInSequence | 3rd_party/googletest/googlemock/src/gmock-spec-builders.cc:793-802 | once a member has served a call, every earlier member is satisfied, retired and never ready again |
| Expectations.Call | 3rd_party/googletest/googlemock/include/gmock/gmock-spec-builders.h:1188-1217 | a call goes to a member of a sequence only while no later member has served one; excessive iff beyond the limit; order and call limits are kept |
| TestFilter.MatcherMeansGlob | 3rd_party/googletest/googletest/src/gtest.cc:457-477 | the recursive matcher accepts exactly the names that split into one piece per pattern character |
| TestFilter.PatternsExact | 3rd_party/googletest/googletest/src/gtest.cc:479-498 | a filter is its patterns with colons between them, and no pattern contains one |
| TestFilter.MatchesFilter | 3rd_party/googletest/googletest/src/gtest.cc:479-498 | true iff some pattern between the colons denotes the name |
| TestFilter.PositiveExact | 3rd_party/googletest/googletest/src/gtest.cc:508-516 | the positive part of the flag is its longest prefix without a dash |
| TestFilter.FilterMatchesTest | 3rd_party/googletest/googletest/src/gtest.cc:500-528 | one of the positive patterns and none of the negative ones; no positive pattern stands for all tests |
| TestFilter.FilterTest | 3rd_party/googletest/googletest/src/gtest.cc:4806-4830 | the verdict on one test |
| TestFilter.FilterTestCase | 3rd_party/googletest/googletest/src/gtest.cc:4806-4837 | the verdicts on the tests of one case, and whether the case should run |
| TestFilter.FilterTests | 3rd_party/googletest/googletest/src/gtest.cc:4781-4840 | the verdicts on all tests and the number selected |
| TestFilter.ExactlyOneShard | 3rd_party/googletest/googletest/src/gtest.cc:4774-4780 | every runnable test is selected on exactly one shard, no other test on any |
| TestFilter.ShardsAreBalanced | 3rd_party/googletest/googletest/src/gtest.cc:4781-4840 | a shard gets the quotient of the runnable tests, the first ones one more; sizes differ by at most one |
| TestOrder.Random.Generate | 3rd_party/googletest/googletest/src/gtest.cc:308-325 | the generator's next state, and a number below the range |
| TestOrder.EveryNumberDrawn | 3rd_party/googletest/googletest/src/gtest.cc:308-325 | every number below the range is drawn from some state |
| TestOrder.ShuffleRange | 3rd_party/googletest/googletest/src/gtest-internal-inl.h:307-329 | exactly the swaps that the generator's next numbers call for, which permute the range and leave the rest alone; the generator moves one state for each |
| TestOrder.EveryOrderPossible | 3rd_party/googletest/googletest/src/gtest-internal-inl.h:322-328 | every order of the range is the outcome of some draws |
| TestOrder.UnitTestImpl.GetTestCase | 3rd_party/googletest/googletest/src/gtest.cc:4490-4535 | finds the case or inserts a new one: a death test case right behind the last one, any other at the end |
| TestOrder.UnitTestImpl.AddTestInfo | 3rd_party/googletest/googletest/src/gtest.cc:2751-2756 | appends the test to its case and changes no other |
| TestOrder.UnitTestImpl.ShuffleTests | 3rd_party/googletest/googletest/src/gtest.cc:4937-4951 | the death test cases, then the others, then the tests of each case are shuffled by exactly the generator's next numbers; what is registered stays, and death test cases still come first |
| TestOrder.UnitTestImpl.UnshuffleTests | 3rd_party/googletest/googletest/src/gtest.cc:4953-4961 | restores the order of registration |
| TestOrder.UnitTestImpl.RunTests | 3rd_party/googletest/googletest/src/gtest.cc:4647-4650 | runs the tests in the order that the two levels of indices give |
| TestOrder.RunsEachTestOnce | 3rd_party/googletest/googletest/src/gtest.cc:4937-4951 | a valid order runs every registered test exactly once and nothing else |
| TestOrder.DeathTestsRunFirst | 3rd_party/googletest/googletest/src/gtest.cc:4937-4951 | all death tests run before all other tests |
| TestOrder.UnshuffledRunsInOrder | 3rd_party/googletest/googletest/src/gtest.cc:4953-4961 | an unshuffled program runs in the order of registration |
| PrimeTables.PrimeAbove | 3rd_party/googletest/googletest/samples/prime_tables.h:69-75 | some prime lies above every number, so the search ends |
| PrimeTables.OnTheFlyIsPrime | 3rd_party/googletest/googletest/samples/prime_tables.h:58-67 | trial division up to the square root decides primality |
| PrimeTables.OnTheFlyGetNextPrime | 3rd_party/googletest/googletest/samples/prime_tables.h:69-75 | terminates with the least prime above p, or -1 for every negative p |
| PrimeTables.MarkMultiples | 3rd_party/googletest/googletest/samples/prime_tables.h:109-112 | clears exactly the proper multiples |
| PrimeTables.CalculatePrimesUpTo | 3rd_party/googletest/googletest/samples/prime_tables.h:102-114 | the sieve agrees with primality on 0..max |
| PrimeTables.PreCalculatedPrimeTable.constructor | 3rd_party/googletest/googletest/samples/prime_tables.h:82-86 | the table agrees with primality |
| PrimeTables.PreCalculatedPrimeTable.GetNextPrime | 3rd_party/googletest/googletest/samples/prime_tables.h:93-99 | the least prime above p, or -1 iff the table holds none |
| PrimeTables.HybridPrimeTable.IsPrime | 3rd_party/googletest/googletest/samples/sample8_unittest.cc:62-67 | primality, whichever table answers |
| PrimeTables.HybridPrimeTable.GetNextPrime | 3rd_party/googletest/googletest/samples/sample8_unittest.cc:69-75 | the least prime above p iff p is not negative, or the table is asked about -1 and holds 2 |

## Left out

- ProtobufCodec.FillEmptyBuffer: only messages whose checksummed part is shorter than 2^31 bytes; beyond that the int length handed to adler32 turns negative.
- ProtobufCodec.FrameVerdict: the same messages, those that can be sent.
- ProtobufCodec.DeliverableExact: the same messages, those that can be sent.
- EditScript.CheapestExactlyWithoutTies: exact for the scripts of all prefixes together; for the returned script alone the absence of ties is sufficient but not necessary.
- TestOrder.ShuffleRange: returns the new vector, which the caller assigns; updating it through a pointer is not captured.
- UnifiedDiff.Hunk.PrintTo: the printed text is a record of header and lines; the character formatting of headers and line ends is not captured.
- DoubleLock.NoDeadlock: the 30-second timeout of timed_lock is not modelled; a lock call waits until the mutex is free.
- Expectations.AddPrerequisite: prerequisites are added only while an expectation is the newest one, as an EXPECT_CALL statement does; joining a sequence later is not covered.
- TestOrder.UnitTestImpl.RunTests: should_run flags, environments and the read-only GetTestCase(i), which ignores the shuffled index, are not modelled.
- The rest of Buffer (FindCRLF, ReadFd, the 8- and 16-bit integers, RetrieveUntil): the same shapes as the modelled operations, or input and output.
- The connection callbacks, sessions, dispatcher and session manager of src/common/net: thin callbacks or declarations without bodies.
- The read-write lock and its queue: they change the deque under a read lock, so no ordering law follows from the code.
- BlockingQueue::empty(), which reads the deque without the lock, and Condition::WaitForSeconds, which has no body.
- Failure messages of ValidateRegex, FindPairing's explanation and FindUnsatisfiedPrerequisites: diagnostics only.
- Death-test processes, printers, XML and socket output, flag parsing and platform code of Google Test: input, output and operating-system plumbing.
- Start-up code, singletons, atomics and the Python scripts: trivial wrappers or network and file work.
