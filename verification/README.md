# Verified models of AFL++'s harder logic

A Dafny model of the parts of AFL++ whose correctness does not show on the page, with proofs
that hold for every input, every interleaving and every run:

- **Coverage pruning** (`ControlFlow`, `Pruning`, `EdgeSplitting`): the LLVM pass splits critical
  edges and then leaves out full dominators and most full post-dominators. Dominance and
  post-dominance are defined by paths. The result: two complete executions of the original
  function take the same edges exactly when they hit the same instrumented blocks of the split one.
- **Guards and counters** (`Guards`): the numbering of guard slots, with the exact conditions
  under which slots are distinct and inside their array, and the never-zero hit counter.
- **xxHash** (`HashInput`, `Xxh3Core`, `Xxh3Stream`, `Xxh3Windows`, `XxhLanes`, `XxhKernels`): the buffered
  streaming state machines of XXH3 (64 bit), XXH32 and XXH64 give the one-shot hash for every way
  of cutting the input; for XXH3, over every sequence of resets, updates and digests. The stripe
  arithmetic of XXH3 is a parameter, so that the result holds for each of the scalar and vector
  implementations; which bytes meet which part of the secret is written out by positions. For XXH32
  and XXH64 the arithmetic is written out, and `XxhInjective` shows that it loses nothing.
  `Xxh3Short` inverts the XXH3 hash of inputs of up to eight bytes, and `Xxh3Keys` shows how it
  depends on secret and seed.
- **Corpus minimiser** (`CminPack`, `CminProtocol`, `CminInvariant`, `CminSelection`): dispatcher,
  workers and main process of `afl-cmin.py` as a transition system over first-in first-out queues,
  then the merge and the two selection passes as loops. Every schedule ends after the same number
  of steps without deadlock, and the files saved cover what the whole corpus covers.
- **Virgin maps** (`Coverage`): discovering new bits, the bound on the number of reports over a
  whole fuzzing run, and the skimming scans against classify-then-scan.
- **Element list** (`ElementList`): the circular doubly linked list over a pool of preallocated
  elements refines a plain sequence, for every sequence of operations.
- **Havoc stage** (`Mutations`, `HavocBytes`, `HavocNumbers`, `HavocGrowth`, `Havoc`): unbiased draws, block lengths,
  the shuffle as a single cycle, the switch, and whole runs of all operators on one buffer, in place,
  with the exact attempts at which a run leaves its buffers.
- **Growing buffers** (`Bits`, `Growth`): rounding up to a power of two and `afl_realloc`.
- **Wide arithmetic** (`WideArithmetic`): 64x64-bit products and 128-bit operations out of words.

`Basics` holds the types and the copying that several models share.

`dafny verify dfyconfig.toml` checks the whole project.

Where the code and its documentation disagree, the model follows the code:

- `next_pow2` is documented to round up or give 0 on overflow. It lacks the shift by 32 places, so
  with 64-bit sizes it does so exactly when the argument less one has no 32 zero bits in a row
  below its highest bit (`Growth.NextPow2Rounds`, `Growth.NextPow2Beyond32Bits`).
- `afl_realloc` is documented to return NULL for a size below 1. It does not; a request of 0 bytes
  is met like any other (`Growth.Buffer.Realloc`).
- `has_new_bits_unclassified` is documented to keep the trace when it returns 0. It skims and
  classifies the whole map but scans only the part in use, so a hit behind that part changes the
  trace although 0 is returned (`Coverage.TailHitChangesTrace`); the exact condition is part of
  `Coverage.HasNewBitsUnclassified`.
- Guard slots are meant to be distinct and inside their array. With calls of
  `__afl_coverage_interesting` they need not be; `Guards.NumberGuards` states exactly when they are.
- `afl_mutate` is given the largest length that the input may grow to, and allocates its second
  buffer with that size. `MUT_INSERTONE` and `MUT_ASCIINUM` do not look at it. The former leaves a
  buffer exactly when an input of two or more bytes fills it. The latter can leave one exactly when
  some number in an input of four or more bytes, replaced by the longest of five alterations, makes
  the input longer than the buffers (`Havoc.LeavesExactlyWhen`, with `HavocGrowth.Longest`):
  "aaa0" can become "aaa-255" (`Havoc.NumberOutgrowsFourBytes`). A number never grows by more than
  three characters, so room for one and three bytes more per attempt is safe, and all other
  operators keep to the largest length (`Havoc.Mutate`).
- `MUT_ASCIINUM` prints into a buffer of 32 bytes but limits the length by the size of a pointer:
  exactly the numbers of up to seven characters are printed in full (`HavocNumbers.PrintedInFull`).
- Pruning can lose coverage only when a reachable block has an unreachable predecessor, which LLVM
  normally removes, or when a critical edge was left unsplit, as LLVM does with edges into
  exception-handling pads and out of indirect branches. `Pruning.UnreachablePredecessorLosesCoverage`
  and `Pruning.CriticalEdgesLoseCoverage` are graphs that show each. Unreachable code that leads only
  to unreachable code does no harm.

## Model

| member | source | states |
|---|---|---|
| `Pruning.PruningIsLossless` | AFLplusplus/instrumentation/SanitizerCoveragePCGUARD.so.cc:528-577 | without critical edges, two complete runs hit the same instrumented blocks iff they hit the same blocks, iff they take the same edges |
| `Pruning.SameCoverageMissesNothing` | AFLplusplus/instrumentation/SanitizerCoveragePCGUARD.so.cc:554-577 | with equal coverage, no block of one run is missed by the other |
| `Pruning.MissedBlockEscapes` | AFLplusplus/instrumentation/SanitizerCoveragePCGUARD.so.cc:528-577 | on a stretch that the other run misses, every block has no successor or fails to dominate a live one |
| `Pruning.DominatedTargetCannotEscape` | AFLplusplus/instrumentation/SanitizerCoveragePCGUARD.so.cc:528-539 | a block with several predecessors, dominated by one that leads only to it, dominates all its live successors |
| `Pruning.UndominatedIsOnlySuccessor` | AFLplusplus/instrumentation/SanitizerCoveragePCGUARD.so.cc:528-539 | without critical edges, a live successor that is not dominated is the only one, and has a path that avoids the block |
| `Pruning.SkippedIsNoPostDominator` | AFLplusplus/instrumentation/SanitizerCoveragePCGUARD.so.cc:541-552 | a block that a run skips does not post-dominate any block of the run |
| `Pruning.BlocksDetermineEdges` | AFLplusplus/instrumentation/SanitizerCoveragePCGUARD.so.cc:651-665 | without critical edges, the blocks of a complete run determine the edges it takes |
| `Pruning.BranchesArePruned` | AFLplusplus/instrumentation/SanitizerCoveragePCGUARD.so.cc:528-539 | without critical edges, every block other than the entry with two successors, none of them dead, is a full dominator and left out |
| `Pruning.JoinsArePruned` | AFLplusplus/instrumentation/SanitizerCoveragePCGUARD.so.cc:541-552 | without critical edges, every block with two predecessors is left out, as a full post-dominator if it is live |
| `Pruning.InstrumentedExactly` | AFLplusplus/instrumentation/SanitizerCoveragePCGUARD.so.cc:554-577 | without critical edges, a reachable live block is instrumented iff it is the entry, or has one predecessor and ends the function or fails to dominate a successor; without pruning all are |
| `Pruning.UnreachablePredecessorLosesCoverage` | AFLplusplus/instrumentation/SanitizerCoveragePCGUARD.so.cc:554-577 | a graph in which reachable blocks have unreachable predecessors, on which two runs have equal coverage and different blocks |
| `Pruning.CriticalEdgesLoseCoverage` | AFLplusplus/instrumentation/SanitizerCoveragePCGUARD.so.cc:554-577 | a well-formed graph with critical edges of which only the entry is instrumented, so that two different runs have equal coverage |
| `EdgeSplitting.SplitHasNoCriticalEdges` | AFLplusplus/instrumentation/SanitizerCoveragePCGUARD.so.cc:651-653 | splitting creates no critical edge, and leaves none iff none of the edges that LLVM refuses to split is critical |
| `EdgeSplitting.SplitIsWellFormed` | AFLplusplus/instrumentation/SanitizerCoveragePCGUARD.so.cc:651-653 | splitting keeps a function well formed: no unreachable predecessor of a reachable block, no edge into the entry or out of a dead block |
| `EdgeSplitting.SplitReachable` | AFLplusplus/instrumentation/SanitizerCoveragePCGUARD.so.cc:651-653 | a block of the split function is reachable iff the original block it comes from is |
| `EdgeSplitting.SplitPathTraverses` | AFLplusplus/instrumentation/SanitizerCoveragePCGUARD.so.cc:651-653 | an original edge is taken iff its image is taken in the split function |
| `EdgeSplitting.SplitPruningIsLossless` | AFLplusplus/instrumentation/SanitizerCoveragePCGUARD.so.cc:651-665 | end to end, if no critical edge was refused: equal coverage of the split and pruned function iff equal edges of the original function |
| `Guards.CountExtras` | AFLplusplus/instrumentation/SanitizerCoveragePCGUARD.so.cc:793-852 | the first pass counts the slots that marker calls and selects need |
| `Guards.NumberSelect` | AFLplusplus/instrumentation/SanitizerCoveragePCGUARD.so.cc:917-1013 | a select takes consecutive slots, two for every element of its condition |
| `Guards.NumberExtras` | AFLplusplus/instrumentation/SanitizerCoveragePCGUARD.so.cc:859-1112 | the second pass gives markers and selects one contiguous range of slots each |
| `Guards.NumberGuards` | AFLplusplus/instrumentation/SanitizerCoveragePCGUARD.so.cc:777-857 | all slots are distinct iff there are not both markers and selects, and inside the array iff there are no markers, or a select, or the extra first slot; without blocks nothing is numbered |
| `Guards.SlotsClash` | AFLplusplus/instrumentation/SanitizerCoveragePCGUARD.so.cc:893-932 | the three ranges of slots are distinct iff one of the last two is empty: the last marker shares its slot with the first select |
| `Guards.HitsNeverZero` | AFLplusplus/instrumentation/SanitizerCoveragePCGUARD.so.cc:1326-1346 | after n >= 1 hits a counter is ((n - 1) mod 255) + 1 |
| `Guards.Record` | AFLplusplus/instrumentation/SanitizerCoveragePCGUARD.so.cc:1307-1346 | over a whole run, every map entry counts the visits of its guard and is nonzero iff there was one |
| `Xxh3Core.Accumulate` | AFLplusplus/include/xxhash.h:6547-6561 | the stripe loop accumulates stripes in order, each with its own part of the secret |
| `Xxh3Core.HashBlocks` | AFLplusplus/include/xxhash.h:6538-6552 | hashing block by block consumes the stripes one by one with a scramble at each block end |
| `Xxh3Core.HashLong` | AFLplusplus/include/xxhash.h:6533-6649 | the one-shot long hash: all stripes before the last byte, then the last 64 bytes, then the merge |
| `Xxh3Core.ConsumeSplit` | AFLplusplus/include/xxhash.h:7012-7072 | consuming stripes in two parts is consuming them at once, from wherever the first part ended in its block |
| `Xxh3Core.ConsumeBlocks` | AFLplusplus/include/xxhash.h:7029-7060 | completing the current block and then whole blocks stops at a block end with less than one block left |
| `Xxh3Core.ConsumeStripes` | AFLplusplus/include/xxhash.h:7029-7072 | consuming stripes across block ends is consuming them one at a time, and the position in the block is exact |
| `Xxh3Stream.State.ResetInternal` | AFLplusplus/include/xxhash.h:6933-6958 | every reset starts an empty stream under the given secret and seed |
| `Xxh3Stream.State.Reset` | AFLplusplus/include/xxhash.h:6962-6969 | reset with the default secret |
| `Xxh3Stream.State.ResetWithSecret` | AFLplusplus/include/xxhash.h:6971-6982 | fails exactly for a missing or short secret, and otherwise starts a stream under it |
| `Xxh3Stream.State.ResetWithSeed` | AFLplusplus/include/xxhash.h:6984-6995 | whatever resets came before, the secret in force afterwards is the one derived from the seed, also when it is not rebuilt |
| `Xxh3Stream.State.ResetWithSecretAndSeed` | AFLplusplus/include/xxhash.h:6997-7008 | fails exactly for a missing or short secret, and otherwise keys short inputs by the seed, long ones by the secret |
| `Xxh3Stream.FlushBuffer` | AFLplusplus/include/xxhash.h:7133-7143 | consuming the full buffer leaves its last stripe in the buffer's tail |
| `Xxh3Stream.ConsumeDirectly` | AFLplusplus/include/xxhash.h:7145-7155 | consuming straight from the input leaves the last consumed stripe in the buffer's tail |
| `Xxh3Stream.BufferRest` | AFLplusplus/include/xxhash.h:7157-7162 | buffering the rest keeps the stale tail that the digest may need |
| `Xxh3Stream.Absorb` | AFLplusplus/include/xxhash.h:7084-7172 | an update of any length keeps the streaming invariant for the longer input |
| `Xxh3Stream.State.Update` | AFLplusplus/include/xxhash.h:7084-7172 | the state then hashes the old input followed by the new one |
| `Xxh3Stream.LastStripeIsEndOfInput` | AFLplusplus/include/xxhash.h:7204-7221 | the last stripe, in the buffer or rebuilt from its stale tail, is the last 64 bytes of the input |
| `Xxh3Stream.BufferedStripesCompleteInput` | AFLplusplus/include/xxhash.h:7196-7204 | the buffered stripes complete the stripes of the one-shot hash |
| `Xxh3Stream.DigestLong` | AFLplusplus/include/xxhash.h:7184-7223 | the digest of a long input is its one-shot hash, and works on a copy of the accumulators |
| `Xxh3Stream.State.Digest` | AFLplusplus/include/xxhash.h:7226-7247 | the digest is the one-shot hash of everything fed in since the last reset, under its keying |
| `Xxh3Stream.HashInChunks` | AFLplusplus/include/xxhash.h:7084-7247 | digesting after every chunk gives the one-shot hash of each prefix |
| `Xxh3Stream.StreamingHash` | AFLplusplus/include/xxhash.h:6933-7247 | for every keying and every way of cutting the input, streaming gives the one-shot hash |
| `Xxh3Stream.Run` | AFLplusplus/include/xxhash.h:6933-7247 | every sequence of resets (refused ones among them), updates and digests on a new state answers as the plain description does: each digest is the one-shot hash of what was fed in since the last reset in force |
| `Xxh3Windows.ConsumeFollowsSchedule` | AFLplusplus/include/xxhash.h:6533-6561 | stripe i is mixed with 64 bytes of secret from eight times (i modulo the stripes per block), and every block ends with a scramble by the last 64 bytes of the secret |
| `Xxh3Windows.LongHashByPositions` | AFLplusplus/include/xxhash.h:6563-6647 | the last 64 bytes are mixed with the secret from its 71st byte before the end, and merged with bytes 11 to 74 and the length |
| `Xxh3Windows.WindowsOfDefaultSize` | AFLplusplus/include/xxhash.h:6538-6643 | the positions in a secret of 192 bytes in numbers: 16 stripes per block, 128 to 191 for scrambles, 121 to 184 for the last stripe, 11 to 74 for the merge |
| `Xxh3Windows.RolesDiffer` | AFLplusplus/include/xxhash.h:6567-6643 | if the parts of a secret differ, the last stripe's part is none that stripes or scrambles use, and the merge's part is none of these |
| `Xxh3Windows.ShortUpTo240` | AFLplusplus/include/xxhash.h:6739-6803 | up to 240 bytes the short hash, beyond the long one, each with the secret and seed of its keying |
| `Xxh3Windows.SecretsFrom136` | AFLplusplus/include/xxhash.h:6971-7008 | secrets are accepted from 136 bytes on |
| `XxhLanes.HashOneShot` | AFLplusplus/include/xxhash.h:3295-3338 | the one-shot loop (that of XXH64, lines 3818-3864, has the same form) folds the whole blocks and finishes with the rest |
| `XxhLanes.FoldAppend` | AFLplusplus/include/xxhash.h:3426-3479 | appending input completes what was left over first: the folds and rests agree |
| `XxhLanes.Absorb` | AFLplusplus/include/xxhash.h:3426-3483 | buffering, completing and direct rounds keep exactly the fold and the rest of all input |
| `XxhLanes.LargeLenIsExact` | AFLplusplus/include/xxhash.h:3422-3424 | the wrapped 32-bit total and the sticky flag tell exactly whether sixteen bytes were seen |
| `XxhLanes.State32.Update` | AFLplusplus/include/xxhash.h:3407-3483 | XXH32 then holds the old input followed by the new one |
| `XxhLanes.State32.Digest` | AFLplusplus/include/xxhash.h:3486-3507 | the digest is the one-shot hash, for every total length |
| `XxhLanes.State64.Update` | AFLplusplus/include/xxhash.h:3934-4001 | XXH64 then holds the old input followed by the new one |
| `XxhLanes.State64.Digest` | AFLplusplus/include/xxhash.h:4004-4029 | the digest is the one-shot hash; the tail length taken from the total is that of the buffered bytes |
| `XxhLanes.Streaming32` | AFLplusplus/include/xxhash.h:3407-3507 | XXH32 streaming equals one-shot for every way of cutting the input, past 2^32 bytes too |
| `XxhLanes.Streaming64` | AFLplusplus/include/xxhash.h:3934-4029 | XXH64 streaming equals one-shot for every way of cutting the input |
| `XxhKernels.Lanes32AreValid` | AFLplusplus/include/xxhash.h:3393-3404 | the third lane of XXH32 starts out as the seed exactly for 32-bit seeds |
| `XxhKernels.Xxh32` | AFLplusplus/include/xxhash.h:3082-3338 | XXH32 with its own rounds and finish: for every 32-bit seed, streaming in any chunks gives the one-shot hash |
| `XxhKernels.Xxh64` | AFLplusplus/include/xxhash.h:3717-3864 | XXH64 with its own rounds and finish: streaming in any chunks gives the one-shot hash |
| `XxhInjective.RoundBlock32TellsBlocks` | AFLplusplus/include/xxhash.h:3082-3090 | for given lanes, a round of XXH32 tells all blocks apart |
| `XxhInjective.RoundBlock64TellsBlocks` | AFLplusplus/include/xxhash.h:3717-3724 | for given lanes, a round of XXH64 tells all blocks apart |
| `XxhInjective.Finalize32TellsHash` | AFLplusplus/include/xxhash.h:3170-3278 | for a given tail, the finish of XXH32 tells all hashes so far apart |
| `XxhInjective.Finalize32TellsUnits` | AFLplusplus/include/xxhash.h:3170-3278 | tails that differ in one unit, four bytes or one, give different hashes |
| `XxhInjective.SmallInputsDiffer32` | AFLplusplus/include/xxhash.h:3295-3338 | XXH32 tells inputs of less than 16 bytes apart that differ in one unit, for every seed |
| `XxhInjective.Finalize64TellsHash` | AFLplusplus/include/xxhash.h:3762-3797 | for a given tail, the finish of XXH64 tells all hashes so far apart |
| `XxhInjective.Finalize64TellsUnits` | AFLplusplus/include/xxhash.h:3762-3797 | tails that differ in one unit, eight bytes, four or one, give different hashes |
| `XxhInjective.SmallInputsDiffer64` | AFLplusplus/include/xxhash.h:3818-3864 | XXH64 tells inputs of less than 32 bytes apart that differ in one unit, for every seed |
| `Xxh3Short.AvalancheUndone` | AFLplusplus/include/xxhash.h:3736-3745 | the XXH64 avalanche has an inverse |
| `Xxh3Short.RrmxmxUndone` | AFLplusplus/include/xxhash.h:4976-4985 | the rrmxmx mix has an inverse for a known length of up to eight |
| `Xxh3Short.Recover4to8` | AFLplusplus/include/xxhash.h:5050-5071 | inputs of four to eight bytes are recovered from hash, length, secret and seed |
| `Xxh3Short.Recover1to3` | AFLplusplus/include/xxhash.h:5021-5048 | inputs of one to three bytes are recovered from hash, length, secret and seed |
| `Xxh3Short.RecoverInput` | AFLplusplus/include/xxhash.h:5097-5115 | every input of up to eight bytes is recovered |
| `Xxh3Short.ShortHashIsInjective` | AFLplusplus/include/xxhash.h:5021-5115 | inputs of equal length up to eight never collide, whatever secret and seed |
| `Xxh3Keys.HashTellsKey` | AFLplusplus/include/xxhash.h:5021-5115 | for a given input of up to eight bytes, hashes are equal iff the keys made of secret and seed are |
| `Xxh3Keys.SeedMatters` | AFLplusplus/include/xxhash.h:5021-5115 | for a given input and secret, hashes are equal iff the seeds are |
| `Xxh3Keys.SecretMatters` | AFLplusplus/include/xxhash.h:5021-5115 | for a given input and seed, the hash depends on two words of the secret only (bytes 0 to 7, 8 to 23 or 56 to 71, by length), and changes whenever one of them alone does |
| `Xxh3Keys.MixSeedByBytes` | AFLplusplus/include/xxhash.h:5058 | the seed for four to eight bytes: each byte of the upper half with one of the lower half, in the opposite order |
| `Xxh3Keys.WorkedHashesUpTo3` | AFLplusplus/include/xxhash.h:5021-5115 | the hashes of "", "a" and "abc" with the default secret |
| `Xxh3Keys.WorkedHashesUpTo8` | AFLplusplus/include/xxhash.h:5050-5071 | the hashes of "abcd" and "abcdefgh" with the default secret |
| `CminPack.DetectTypeCode` | AFLplusplus/afl-cmin.py:281-284 | the first type code beyond a size exists iff the size fits eight bytes; its largest number is free to mean "no file" |
| `CminPack.FileRoundTrip` | AFLplusplus/afl-cmin.py:459-463 | reading an array back from where it was written gives the array, whatever follows it |
| `CminPack.HoldsAppended` | AFLplusplus/afl-cmin.py:459-463 | appending to a pack keeps what it holds |
| `CminProtocol.RecordTrace` | AFLplusplus/afl-cmin.py:444-457 | the in-place loop improves the table by one trace, and reports use iff the table changed |
| `CminProtocol.ImproveTakesMinimum` | AFLplusplus/afl-cmin.py:454-457 | each entry becomes the smaller of the old one and the file, for tuples of the trace only |
| `CminProtocol.ChunkIsFairShare` | AFLplusplus/afl-cmin.py:608 | the batch size is the largest even share of the files, but at least one and at most 128 |
| `CminProtocol.BatchAt` | AFLplusplus/afl-cmin.py:608-609 | the batches are consecutive, all of that size but the last, which is not empty |
| `CminProtocol.CrashedAre` | AFLplusplus/afl-cmin.py:446-447 | a worker's list of crashes names exactly the files it handled whose trace is empty |
| `CminInvariant.InitInv` | AFLplusplus/afl-cmin.py:598-617 | the initial state, with all batches and one sentinel per worker, meets the invariant |
| `CminInvariant.StepKeepsInv` | AFLplusplus/afl-cmin.py:407-467 | every step of every process keeps it: files conserved, tables exact, packs readable, reports and results complete |
| `CminInvariant.StepsCountDown` | AFLplusplus/afl-cmin.py:407-467 | every step of every process uses up exactly one of the steps left |
| `CminInvariant.NoDeadlock` | AFLplusplus/afl-cmin.py:618-635 | until main has one message per file and one result per worker, some process can move |
| `CminInvariant.EveryRun` | AFLplusplus/afl-cmin.py:598-635 | whatever the interleaving, runs have a fixed length, never get stuck early, and keep the invariant |
| `CminInvariant.MergedTablesAreExact` | AFLplusplus/afl-cmin.py:617-636 | the smallest entry over all tables is the least file with the tuple, and main knows where its trace is packed |
| `CminInvariant.MergedCountsAreExact` | AFLplusplus/afl-cmin.py:626-635 | the merged counter holds every occurrence of every tuple |
| `CminInvariant.MergedCrashesAreExact` | AFLplusplus/afl-cmin.py:626-635 | the results together name exactly the files that crashed |
| `CminInvariant.SentIsPacked` | AFLplusplus/afl-cmin.py:459-463 | every trace a worker reported can be found in its pack at the reported position |
| `CminSelection.MergeTables` | AFLplusplus/afl-cmin.py:626-636 | the merged table is the minimum of all tables, entry by entry |
| `CminSelection.MergeCounters` | AFLplusplus/afl-cmin.py:629-633 | the merged counter is the sum of all counters |
| `CminSelection.MergeCrashes` | AFLplusplus/afl-cmin.py:626-634 | the merged list names what some worker named |
| `CminSelection.ListTuples` | AFLplusplus/afl-cmin.py:653 | every tuple is listed once with its count |
| `CminSelection.FirstPass` | AFLplusplus/afl-cmin.py:677-691 | saves each file that has a tuple of its own, none twice; each is essential, and its trace is queued with the worker that packed it |
| `CminSelection.EssentialIsFirst` | AFLplusplus/afl-cmin.py:677-691 | for duplicate-free traces, every essential file is saved by the first pass |
| `CminSelection.CombineTraces` | AFLplusplus/afl-cmin.py:478-486 | a combining worker returns exactly the tuples of its jobs |
| `CminSelection.CombineAll` | AFLplusplus/afl-cmin.py:693-706 | the combined sets are exactly the tuples of the files saved so far |
| `CminSelection.SecondPass` | AFLplusplus/afl-cmin.py:708-722 | each file it saves brings a tuple that no file saved before has; so none is saved twice |
| `CminSelection.Select` | AFLplusplus/afl-cmin.py:677-722 | both passes together cover everything, save no file twice, essential files first, each later file with something new |
| `CminSelection.MinimiseCollected` | AFLplusplus/afl-cmin.py:626-722 | from the collected data to a covering selection, essential files first and, for duplicate-free traces, exactly those |
| `CminSelection.Minimise` | AFLplusplus/afl-cmin.py:598-722 | end to end: after every schedule in which nobody can move any more, the saved files cover what the corpus covers, none twice, each later one with something new; for duplicate-free traces the first pass saves exactly the essential files; the list of crashes is exact |
| `Coverage.DiscoverWord` | AFLplusplus/include/coverage-64.h:83-113 | one word (on 32 bits, coverage-32.h:73-101): the verdict is raised to 2 iff a nonzero byte meets 0xff, else to 1 iff a bit overlaps, and the bits seen are cleared |
| `Coverage.HasNewBits` | AFLplusplus/src/afl-fuzz-bitmap.c:213-246 | the scan gives the verdict on the whole map and clears exactly the bits seen |
| `Coverage.VerdictAppend` | AFLplusplus/include/coverage-64.h:83-113 | the verdict on a map is the largest over its parts |
| `Coverage.AfterClearsTheUnion` | AFLplusplus/src/afl-fuzz-bitmap.c:205-246 | after any run of traces the virgin map is the initial one without any bit of any trace |
| `Coverage.ReportsAreBounded` | AFLplusplus/src/afl-fuzz-bitmap.c:205-246 | over any run, at most one report of 2 per untouched byte and one nonzero report per bit of the initial map |
| `Coverage.VerdictTellsLosses` | AFLplusplus/src/afl-fuzz-bitmap.c:205-246 | the verdict is 2 iff an untouched byte is touched, and not 0 iff a bit of the virgin map is lost |
| `Coverage.ScanAll` | AFLplusplus/src/afl-fuzz-bitmap.c:205-246 | scanning any traces one after the other leaves the initial map without any bit of them, reports as described, and makes at most one report of 2 per byte and one nonzero report per bit |
| `Coverage.ClassifyCounts` | AFLplusplus/include/coverage-64.h:64-79 | classifies every nonempty word in place (on 32 bits, coverage-32.h:54-69) |
| `Coverage.ClassifyWordByPairs` | AFLplusplus/include/coverage-64.h:17-30 | every pair of bytes of a word is looked up in the table (on 32 bits, coverage-32.h:13-24) |
| `Coverage.ClassifiedByPairs` | AFLplusplus/include/coverage-64.h:64-79 | so is every pair of a map, if the table maps the pair of zeros to itself |
| `Coverage.WidthsClassifyAlike` | AFLplusplus/include/coverage-32.h:54-69 | the 32-bit and the 64-bit form classify alike |
| `Coverage.SkimSeesClassifiedHits` | AFLplusplus/include/coverage-64.h:182-199 | looking at the nonempty words one by one finds a hit iff the classified map has one |
| `Coverage.SkimPack` | AFLplusplus/include/coverage-64.h:184-197 | the scalar pack (on 32 bits, coverage-32.h:104-117): a hit found is real, and none is passed over |
| `Coverage.SkimPackVector` | AFLplusplus/include/coverage-64.h:115-180 | the vector pack with its mask of empty words: a hit found is real, and none is passed over |
| `Coverage.Skim` | AFLplusplus/include/coverage-64.h:115-199 | every variant returns 1 iff classifying and then scanning would find something |
| `Coverage.HasNewBitsUnclassified` | AFLplusplus/src/afl-fuzz-bitmap.c:258-277 | the fast form answers as classify-then-scan does; the trace is classified iff there is a hit in the scanned part or behind it, and otherwise kept |
| `Coverage.TailHitChangesTrace` | AFLplusplus/src/afl-fuzz-bitmap.c:248-277 | a 64-byte map with 56 bytes in use, which every variant takes, whose trace is changed although the answer is 0 |
| `ElementList.LinkLast` | AFLplusplus/include/list.h:89-92 | the new element becomes the last one of the ring, linked both ways |
| `ElementList.Unlink` | AFLplusplus/include/list.h:154-155 | the ring without the element is still linked both ways |
| `ElementList.List.FindUnused` | AFLplusplus/include/afl-prealloc.h:69-84 | a counter below the pool size guarantees an unused slot, and the search finds it |
| `ElementList.List.PreAlloc` | AFLplusplus/include/afl-prealloc.h:58-88 | never hands out an element in use; takes from the pool iff the counter is below its size |
| `ElementList.List.PreFree` | AFLplusplus/include/afl-prealloc.h:107-140 | returns a slot to the pool; neither the negative counter nor the double free can occur |
| `ElementList.List.Initialise` | AFLplusplus/include/list.h:73-81 | whatever the memory held, the list is then empty with the head in the first slot |
| `ElementList.List.Append` | AFLplusplus/include/list.h:70-94 | appends at the end, setting the list up first if needed |
| `ElementList.List.RemoveElement` | AFLplusplus/include/list.h:123-130 | takes one element out of ring, entries and pool and keeps the others in order |
| `ElementList.List.Remove` | AFLplusplus/include/list.h:148-166 | removes the first occurrence, or ends in FATAL iff there is none |
| `ElementList.List.Contains` | AFLplusplus/include/list.h:170-180 | finds an entry iff there is one; ends in FATAL iff the list was never set up |
| `ElementList.List.ForeachClear` | AFLplusplus/include/list.h:102-144 | visits every entry once, in order, and leaves the list empty |
| `ElementList.Run` | AFLplusplus/include/list.h:70-180 | every sequence of operations on a new list answers, or ends in FATAL, as the plain sequence does |
| `Mutations.RandBelow` | AFLplusplus/include/afl-fuzz.h:1338-1365 | the remainder of the word that the rejection loop ends with is below the limit; 0 if there is no choice |
| `Mutations.DrawsAreUniform` | AFLplusplus/include/afl-fuzz.h:1352-1363 | the rejection makes draws unbiased: the same number of accepted words, at least one, gives each of them |
| `Mutations.ChooseBlockLen` | AFLplusplus/include/afl-mutations.h:1760-1799 | 1 for limit 0, otherwise between 1 and the smaller of limit and 32768; at most 32 in the first ten minutes or cycle, at most 128 in the second cycle |
| `Mutations.LengthsDrawn` | AFLplusplus/include/afl-mutations.h:1760-1799 | a length can be drawn iff it lies in one of the classes that running time and cycle allow, cut off at the limit |
| `Mutations.PermutationIsSingleCycle` | AFLplusplus/include/afl-mutations.h:2304-2317 | whatever the draws, the shuffle's permutation is one cycle through all positions of the block |
| `Mutations.SingleCycleMovesAll` | AFLplusplus/include/afl-mutations.h:2304-2317 | in a block of two or more, no position keeps its own byte |
| `Mutations.ShuffleBlock` | AFLplusplus/include/afl-mutations.h:2304-2317 | the in-place loop applies that permutation to the block and changes nothing else |
| `Mutations.MutShuffle` | AFLplusplus/include/afl-mutations.h:2295-2321 | MUT_SHUFFLE permutes a nonempty block within the input by a single cycle |
| `Mutations.SwitchBlocks` | AFLplusplus/include/afl-mutations.h:2261-2271 | two disjoint blocks change places and every other byte stays |
| `Mutations.MutSwitch` | AFLplusplus/include/afl-mutations.h:2233-2275 | MUT_SWITCH switches two nonempty disjoint blocks within the input |
| `Havoc.InsertBlock` | AFLplusplus/include/afl-mutations.h:2099-2113 | head, block and tail by way of the second buffer: the block is inserted at its place |
| `Havoc.InsertInPlace` | AFLplusplus/include/afl-mutations.h:2571-2576 | moving the tail up and copying the block in: the same insertion |
| `Havoc.Delete` | AFLplusplus/include/afl-mutations.h:2285-2289 | the input without the deleted block |
| `HavocBytes.LoadIsNumber` | AFLplusplus/include/afl-mutations.h:1978-2074 | reading a word and swapping it reads the bytes in the opposite order |
| `HavocBytes.NumberOfStored` | AFLplusplus/include/afl-mutations.h:1905-2074 | what is stored, swapped or not, reads back as the number in its byte order |
| `HavocBytes.Change` | AFLplusplus/include/afl-mutations.h:1871-2087 | flips a bit or a byte, xors with a nonzero byte, adds or subtracts 1 to 35 with wrap-around in either byte order, or stores an interesting value (BYTEADD, BYTESUB and FLIP8 are lines 2206-2231) |
| `HavocBytes.PointOpsChangeBytes` | AFLplusplus/include/afl-mutations.h:2076-2087 | no operator on one, two or four bytes is a no-op, interesting values aside |
| `HavocNumbers.PrintedIsParsed` | AFLplusplus/include/afl-mutations.h:2419-2424 | reading a printed number gives the number |
| `HavocNumbers.PrintedInFull` | AFLplusplus/include/afl-mutations.h:2467-2470 | a number is printed in full iff it is above -1000000 and below 10000000 |
| `HavocNumbers.Alter` | AFLplusplus/include/afl-mutations.h:2428-2465 | the eight ways to alter a number |
| `HavocNumbers.FindNumber` | AFLplusplus/include/afl-mutations.h:2370-2417 | finds digits, up to where they end, iff the input has a digit |
| `HavocNumbers.ReadNumber` | AFLplusplus/include/afl-mutations.h:2419-2426 | the value of the digits, negated after a minus sign |
| `Havoc.DoPoint` | AFLplusplus/include/afl-mutations.h:1871-2087 | changes a window within the input as its operator does, or nothing if the input is too short |
| `Havoc.DoCloneCopy` | AFLplusplus/include/afl-mutations.h:2089-2126 | inserts a part of the input itself iff there is room for the largest block |
| `Havoc.DoCloneFixed` | AFLplusplus/include/afl-mutations.h:2128-2167 | inserts a block of equal bytes iff there is room for the largest block |
| `Havoc.DoOverwriteCopy` | AFLplusplus/include/afl-mutations.h:2169-2187 | overwrites a block with another part of the input as it was |
| `Havoc.DoOverwriteFixed` | AFLplusplus/include/afl-mutations.h:2189-2204 | overwrites a block with equal bytes |
| `Havoc.DoDel` | AFLplusplus/include/afl-mutations.h:2277-2293 | deletes a nonempty block and never everything |
| `Havoc.DoDelOne` | AFLplusplus/include/afl-mutations.h:2323-2340 | deletes one byte and never the last one |
| `Havoc.DoInsertOne` | AFLplusplus/include/afl-mutations.h:2342-2368 | inserts one byte; leaves a buffer iff the input has two bytes or more and fills it |
| `Havoc.DoAsciiNum` | AFLplusplus/include/afl-mutations.h:2370-2497 | replaces a number by an altered one as printed, and keeps the input iff it is short or has no digit; the input grows by at most three bytes, and a buffer is left only if some number in it can outgrow the buffers |
| `HavocGrowth.LongestIsReached` | AFLplusplus/include/afl-mutations.h:2428-2470 | one of five alterations of a number is as long as its longest |
| `HavocGrowth.LongestIsLongest` | AFLplusplus/include/afl-mutations.h:2428-2470 | no alteration of a 64-bit number is printed longer than that, wrap-around included |
| `HavocGrowth.NumberGrowsByThree` | AFLplusplus/include/afl-mutations.h:2419-2470 | a number in the input never gets longer by more than three characters |
| `Havoc.LeavesExactlyWhen` | AFLplusplus/include/afl-mutations.h:1863-2674 | for every operator and input: some draw leaves the buffers iff the operator is MUT_INSERTONE and two or more bytes fill them, or MUT_ASCIINUM and some number can outgrow them |
| `Havoc.NumberOutgrowsFourBytes` | AFLplusplus/include/afl-mutations.h:2370-2497 | "aaa0" can become "aaa-255", which six bytes do not hold |
| `Havoc.GrowthIsBounded` | AFLplusplus/include/afl-mutations.h:1863-2674 | an attempt adds at most one byte (MUT_INSERTONE), three (MUT_ASCIINUM), or stays below the largest length |
| `Havoc.BlocksAreBounded` | AFLplusplus/include/afl-mutations.h:2089-2672 | the blocks that operators copy, fill, cut, shuffle or switch have between 1 and 32768 bytes |
| `HavocNumbers.NegativeIsRead` | AFLplusplus/include/afl-mutations.h:2419-2426 | a printed negative number is read back, minus sign included |
| `HavocNumbers.LastDigitsAreRemainder` | AFLplusplus/include/afl-mutations.h:2523-2535 | the digits inserted are the last ones: the remainder by a power of ten |
| `HavocNumbers.HalfIsTowardsZero` | AFLplusplus/include/afl-mutations.h:2440-2442 | halving is C's division |
| `HavocNumbers.ScalingFits32Bits` | AFLplusplus/include/afl-mutations.h:2443-2454 | the values scaled are those of which ten times the next one fits 32 bits |
| `HavocBytes.MovedWithoutWrap` | AFLplusplus/include/afl-mutations.h:1944-2074 | away from the ends, adding adds and subtracting subtracts |
| `HavocBytes.InterestingValuesFit` | AFLplusplus/include/config.h:365-403 | the tables have their sizes, and their values fit signed numbers of their width |
| `Havoc.SubstituteBlock` | AFLplusplus/include/afl-mutations.h:2469-2492 | a block in place of another, directly or by way of the second buffer |
| `Havoc.DoInsertAsciiNum` | AFLplusplus/include/afl-mutations.h:2499-2540 | overwrites with the last digits of a number, at most eight, iff they fit at the place drawn |
| `Havoc.DoExtraOverwrite` | AFLplusplus/include/afl-mutations.h:2542-2558 | overwrites with a dictionary entry that fits |
| `Havoc.DoExtraInsert` | AFLplusplus/include/afl-mutations.h:2560-2580 | inserts a dictionary entry for which there is room |
| `Havoc.DoSpliceOverwrite` | AFLplusplus/include/afl-mutations.h:2622-2640 | overwrites with a part of the other input |
| `Havoc.DoSpliceInsert` | AFLplusplus/include/afl-mutations.h:2642-2672 | inserts a part of the other input iff there is room for the largest block |
| `Havoc.Mutate` | AFLplusplus/include/afl-mutations.h:1801-2682 | over any number of attempts each does what its operator may do and every access is in range; a run stops early exactly at an attempt whose result the buffers cannot hold, where operator and input meet the condition for it; the input never exceeds the largest length plus what the operators so far may add, so a run with that much room never stops early; without MUT_INSERTONE and MUT_ASCIINUM nothing is added; an empty input is left alone |
| `Growth.SmearFills` | AFLplusplus/include/alloc-inl.h:617-623 | the five spreading steps fill all bits below the highest iff there is no gap of 32 zeros |
| `Growth.RoundUpIsLeast` | AFLplusplus/include/alloc-inl.h:603-606 | what rounding up means: the least power of two that is not below the argument |
| `Growth.NextPow2Rounds` | AFLplusplus/include/alloc-inl.h:606-625 | for every argument from 1: the least power of two (0 for 2^64) iff there is no such gap; always 0 or large enough |
| `Growth.NextPow2UpTo32Bits` | AFLplusplus/include/alloc-inl.h:606-625 | correct for every argument from 1 to 2^32 |
| `Growth.NextPow2Beyond32Bits` | AFLplusplus/include/alloc-inl.h:606-625 | wrong for 2^32 + 1 |
| `Growth.NextP2` | AFLplusplus/include/afl-fuzz.h:1406-1417 | the doubling loop gives the least power of two for every value up to 2^63 |
| `Growth.NextSizeSuffices` | AFLplusplus/include/alloc-inl.h:683-696 | the size to allocate is at least what is needed and never overflows |
| `Growth.Buffer.Realloc` | AFLplusplus/include/alloc-inl.h:663-716 | old contents kept, new tail zero, never shrinks, request met iff its size with the header does not wrap; the buffer is freed iff the allocator fails; the first buffer has 56 bytes for every smaller request |
| `Growth.GrowAll` | AFLplusplus/include/alloc-inl.h:656-716 | any granted requests below 2^32 are met, and less than twice the final size was allocated in total |
| `WideArithmetic.AddFirst` | AFLplusplus/include/t1ha_bits.h:1117-1130 | sum and carry are exact |
| `WideArithmetic.AddNext` | AFLplusplus/include/t1ha_bits.h:1135-1149 | sum and carry are exact with a carry in |
| `WideArithmetic.AddMiddleIsExact` | AFLplusplus/include/t1ha_bits.h:1198-1199 | adding a cross product into the double word is exact and does not overflow |
| `WideArithmetic.StackProductsIsExact` | AFLplusplus/include/xxhash.h:4919-4927 | adding up the cross products without carries is exact: no intermediate sum overflows |
| `WideArithmetic.MulIsExact` | AFLplusplus/include/t1ha_bits.h:1172-1203 | both multiplications (the other one is xxhash.h:4913-4927) give the exact 128-bit product |
| `WideArithmetic.Add128IsExact` | AFLplusplus/include/t1ha_bits.h:1369-1380 | addition modulo 2^128 |
| `WideArithmetic.Mul128IsExact` | AFLplusplus/include/t1ha_bits.h:1383-1396 | multiplication modulo 2^128 |
| `WideArithmetic.Left128IsExact` | AFLplusplus/include/t1ha_bits.h:1293-1306 | shifting left multiplies by a power of two modulo 2^128 |
| `WideArithmetic.Right128IsExact` | AFLplusplus/include/t1ha_bits.h:1309-1322 | shifting right divides by a power of two |
| `WideArithmetic.Rot128IsRotation` | AFLplusplus/include/t1ha_bits.h:1355-1366 | the rotation moves the lowest bits to the top and the others down, for every amount |

## Left out

- Pruning.PruningIsLossless: runs that end in the middle of the function (process exit, exceptions, long jumps) and catchswitch blocks are not modelled; the graph is simple, as it is once parallel critical edges have been split.
- EdgeSplitting.SplitPruningIsLossless: says nothing of functions in which LLVM refuses to split a critical edge, as coverage can then be lost; which edges those are is a parameter.
- Guards.NumberGuards: counts are natural numbers, not 32-bit words; selects with a constant condition, for which no second select is inserted, are not modelled.
- Guards.Record: the mode without carry and the atomic mode, whose counters may wrap to zero, are not modelled.
- Xxh3Stream.State.Digest: totals of 2^64 bytes and more are excluded, since no one-shot call takes them; secrets are passed by value, so a caller who changes an external secret while it is in use is not modelled; null states are not modelled.
- XxhLanes.State64.Digest: totals of 2^64 bytes and more are excluded, as above.
- Xxh3Stream.Run: what updates and digests do without a reset in force is not described, as the header does not define it.
- Xxh3Core.HashLong: the arithmetic of stripes, scramble and merge is a parameter; so are the hashes of inputs of 9 to 240 bytes. The choice among SIMD implementations is not modelled.
- CminInvariant.EveryRun: putting into and getting from a queue are single steps, and processes do not die.
- CminSelection.Minimise: a crash is a file with an empty trace, as it is unless AFL_CMIN_ALLOW_ANY is set; the copying of crashes, file names, deduplication and the calls of afl-showmap are not modelled.
- CminSelection.ListTuples: the order of the list is left open, since ties depend on the schedule; so only the coverage of the second pass is fixed, not its choice of files.
- Coverage.ClassifyCounts: the lookup table is an arbitrary function on pairs of bytes; its contents are not modelled.
- ElementList.List.PreAlloc: the allocator never fails; elements of the pool are separate objects, so pointer arithmetic is not modelled.
- Mutations.RandBelow: the generator's words are arbitrary; its reseeding is not modelled, nor how often the loop draws.
- HavocBytes.Change: the machine is little-endian.
- HavocNumbers.ReadNumber: overflow of signed numbers, which C leaves undefined, wraps around.
- Havoc.Mutate: repeating a step that found nothing to do is one more attempt in the sequence; the probability tables are not modelled; nothing is said of what happens after a buffer has been left.
- Growth.Buffer.Realloc: the header is kept beside the contents; allocator canaries and leak tracking are not modelled.
- simplify_trace, the XXH3 128-bit digest and the canonical forms of hashes would add members like those above.
- LLVM and GCC plumbing, forkserver, scheduling, user interface and file handling are outside the model.
