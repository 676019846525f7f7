# Profile data runtime and ARM simulator: a verified model

This project models two parts of the repository and proves what they are relied on for.

**The profile data runtime** (`gcov-src`). At the end of a run the counters of a program are summed up and sorted into a
histogram of 252 buckets. The histogram is merged into the one of earlier runs by a walk over both that divides bucket
sums with truncation; the summary is written through a block buffer behind a bit vector, read back by the next run, and
in the end used to compute working sets. Each stage needs what the stage before it has to establish; the model proves
the whole chain, over any number of runs. With it come the records of zero-profile fixups and of build information, the
program checksum, and three value profilers with their merges.

**The ARM simulator** (`src/sim.c`, `src/shell.c`). Three byte regions are reached only through 32-bit words, and a
processor with two latches is committed once a cycle. The model proves what byte and halfword stores do to memory, what a
comparison followed by a conditional branch does, which words are decoded as which instruction, and what every run keeps.

## How it is built

| modules | model |
|---|---|
| `Powers`, `HistoIndex`, `Histogram` | the bucket of a value; histograms, their totals and the tally of a list of counters |
| `MatchUp`, `HistogramMerge`, `MergeOrder`, `MergedSums` | what a merge means: counters listed hottest first are paired off; the result by rank, and the sums in its buckets |
| `MergeInPlace` | the two-pointer walk over arrays, proved to compute that meaning |
| `Crc32`, `Summary` (module `ProgramSummary`), `ProgramCounters` | the checksum; the summary object, its computation and its merge; which counters and words of a program count |
| `WorkingSets`, `WorkingSetMeaning`, `RunHistory` | working sets; what they say about counters; any number of runs |
| `BlockIO`, `Bits`, `SummaryRecord`, `SummaryRoundTrip` | buffered words; rows of flags; the summary record and its round trip |
| `FixupRecord`, `BuildInfo`, `RecordLayout` | the other two records; where each field of a record lies |
| `OneValue`, `IcallTopN`, `IcallMerge`, `TopNProfiler`, `TopNRuns`, `TopNZeros`, `IcallExit`, `TopNHistory` | the value profilers, their merges, whole runs of samples, and all runs |
| `WordNumbers`, `ArmMemory`, `ArmDecode`, `ArmFields` | words as numbers; memory; decoding, and fields as numbers |
| `ArmExecution`, `ArmData`, `ArmPrograms`, `ArmSimulator` | the effect of an instruction and of a run; results bit by bit and as signed numbers; short programs from their words; the simulator object |

Code that changes state is a class or a method over arrays, proved against a function of the old state; what the source
promises is proved about these functions. `dafny verify dfyconfig.toml` checks everything.

A failing `gcc_assert` is a result of the method (`ok`, or a status), and the contracts say exactly when it fails. Words
are 32-bit numbers, counters signed 64-bit numbers. Sums and products that the source computes in 64 bits carry explicit
bounds (`Mergeable`, `RunsFit`, and `requires` clauses) where it relies on their not overflowing; 32-bit lengths and the
run count wrap around as in the source. The variant modelled is the run-time library's (`IN_LIBGCOV`), with one kind of
summable counter and file locking. A file is a sequence of words.

## What does not hold as stated

- A merge does not always keep "bucket sums add up to `sum_all`": while `run_accounted` is set and the stored summary has
  no runs, the histogram is replaced but `sum_all` adds up. `RunHistory.StoredOkIff` and `RunHistory.WorkingSetsDefined`
  give the exact conditions for the invariant and for the assertion that rests on it, and
  `RunHistory.CountedTwiceLosesARun` an instance.
- The last assertion of `gcov_histogram_merge` fails for an empty source unless the target's bucket 0 is in use, and for
  an empty target (`HistogramMerge.MergeDefined`). Among runs of one program that happens to programs without counters,
  at the first merge after a counted run (`RunHistory.MergeGoesThroughIff`, `RunHistory.NoCountersFailAtSecondRun`).
- The comment at `libgcov-profiler.c:325` says that the largest values are found; the code finds the smallest, and
  zeroes them, as the comment at line 340 says. The model follows the code.
- Sampling the value 0 can give a top-N table two counted entries of it; `TopNRuns.StepKeepsIff` says exactly when a
  sample does so, and `TopNZeros.ZerosCountedTwice` gives a run from the zeroed table that ends so.
- Counts of indirect calls are scaled by the sampling period at the end of a run, so that a value may be counted more than
  it was sampled; exactly for periods above 1 (`TopNHistory.NeverMoreThanSampledIff`, `TopNHistory.SampledOnceCountedTwice`).
- The declared length of a fixup record is wrong for the 31 largest numbers of functions (`FixupRecord.FixupLengthIff`).
- The orders among the branch conditions take no overflow into account (`ArmExecution.TakenIff`, `ArmExecution.OverflowMisleads`).
- Byte and halfword accesses cut the address to 32 bits. They are exact modulo 2^32 for every address;
  `ArmExecution.StoreReachesIff` says when that is the address asked for.
- Some instructions do not do what their names say, and the model follows the code: STUR stores 32 bits, ORR takes its
  second register from bits 22 and 23, B has a six-bit offset, and CBNZ takes the sign of its offset from a field that
  decoding leaves unset (`ArmExecution.CbnzTargetIff`). What such fields hold is a parameter of the simulator.
- Opcodes are looked up in four widths whatever their own is, so that words which are no instructions of the table belong to
  rows, and some branches B belong to other instructions; `ArmDecode.EntryIff` says which words belong to which row.
- A load of a halfword changes no register in the end, since it goes to the latch that is overwritten.

## Model

| member | source | states |
|---|---|---|
| HistoIndex.IndexIffInterval | TP1-ARM/aarch64-linux-android-4.9/lib/gcc/aarch64-linux-android/4.9/gcov-src/gcov-io.c:934-979 | a value is in bucket i if and only if it lies in the interval that starts at (4 + i%4) * 2^(i/4 - 1) and is 2^(i/4 - 1) wide (single values for i < 4) |
| HistoIndex.BucketsAdjacent | TP1-ARM/aarch64-linux-android-4.9/lib/gcc/aarch64-linux-android/4.9/gcov-src/gcov-io.c:932-934 | the intervals tile the counter range: each begins where the one below ends |
| HistoIndex.IndexMonotone | TP1-ARM/aarch64-linux-android-4.9/lib/gcc/aarch64-linux-android/4.9/gcov-src/gcov-io.c:926-980 | a larger counter never gets a lower bucket |
| HistoIndex.SmallValues | TP1-ARM/aarch64-linux-android-4.9/lib/gcc/aarch64-linux-android/4.9/gcov-src/gcov-io.c:964-968 | the index is the identity on 0 to 7, and those buckets hold one value each |
| HistoIndex.BucketSpread | TP1-ARM/aarch64-linux-android-4.9/lib/gcc/aarch64-linux-android/4.9/gcov-src/gcov-io.c:932-934 | two counters of one bucket are equal (below 8) or differ by less than a quarter of the bucket's least value |
| Histogram.Insert | TP1-ARM/aarch64-linux-android-4.9/lib/gcc/aarch64-linux-android/4.9/gcov-src/libgcov-driver.c:325-335 | one insertion changes exactly the bucket of the value, as Inserted says |
| Histogram.TallyInsert | TP1-ARM/aarch64-linux-android-4.9/lib/gcc/aarch64-linux-android/4.9/gcov-src/libgcov-driver.c:325-335 | inserting one more counter gives the tally of the longer list, where a tally is defined bucket by bucket from the list alone |
| Histogram.TallyOk | TP1-ARM/aarch64-linux-android-4.9/lib/gcc/aarch64-linux-android/4.9/gcov-src/libgcov-driver.c:339-391 | a computed histogram is well formed (least value in its own bucket, num * min <= cum), counts each counter once, and its sums add up to the sum of all counters |
| Histogram.NormaliseKeeps | TP1-ARM/aarch64-linux-android-4.9/lib/gcc/aarch64-linux-android/4.9/gcov-src/gcov-io.c:679-680 | zeroing the least value of empty buckets keeps well-formedness and totals, and is idempotent |
| ProgramSummary.Summary.ComputeHistogram | TP1-ARM/aarch64-linux-android-4.9/lib/gcc/aarch64-linux-android/4.9/gcov-src/libgcov-driver.c:339-391 | the histogram becomes the tally of all arc counters of the program; without counters it is left alone |
| ProgramSummary.Summary.CountSlot | TP1-ARM/aarch64-linux-android-4.9/lib/gcc/aarch64-linux-android/4.9/gcov-src/libgcov-driver.c:429-457 | one function slot: totals, maximum and checksum of its counters, of a function of another object as two zero words |
| ProgramSummary.Summary.CountObject | TP1-ARM/aarch64-linux-android-4.9/lib/gcc/aarch64-linux-android/4.9/gcov-src/libgcov-driver.c:424-459 | one object file: the same, over all its slots |
| ProgramSummary.Summary.ComputeSummary | TP1-ARM/aarch64-linux-android-4.9/lib/gcc/aarch64-linux-android/4.9/gcov-src/libgcov-driver.c:411-464 | the summary of a run is a function of the list of its counters (number, sum, maximum, tally), and the checksum is the fold over the program's words |
| ProgramCounters.CountersListedOnce | TP1-ARM/aarch64-linux-android-4.9/lib/gcc/aarch64-linux-android/4.9/gcov-src/libgcov-driver.c:366-388 | the counters tallied are those at the places (object file, slot, counter) where the object has arcs and the function is its own; each place occurs exactly once |
| ProgramCounters.SummaryCountsEachOnce | TP1-ARM/aarch64-linux-android-4.9/lib/gcc/aarch64-linux-android/4.9/gcov-src/libgcov-driver.c:411-464 | so number, sum, maximum and the totals of the histogram count each of these counters exactly once, and the fields that belong to stored summaries are 0 |
| ProgramCounters.OnlyOwnMatters | TP1-ARM/aarch64-linux-android-4.9/lib/gcc/aarch64-linux-android/4.9/gcov-src/libgcov-driver.c:430-434 | emptying or replacing a function that is not the object's own changes neither the summary nor the checksum |
| ProgramCounters.ObjectLayout | TP1-ARM/aarch64-linux-android-4.9/lib/gcc/aarch64-linux-android/4.9/gcov-src/libgcov-driver.c:426-451 | the words that identify an object file: stamp, number of functions, and for each function two checksums (zeros if it is not the object's own) and the number of arc counters |
| ProgramCounters.StampDetected | TP1-ARM/aarch64-linux-android-4.9/lib/gcc/aarch64-linux-android/4.9/gcov-src/libgcov-driver.c:426 | another stamp of one object file gives another program checksum |
| ProgramCounters.FunctionChangeDetected | TP1-ARM/aarch64-linux-android-4.9/lib/gcc/aarch64-linux-android/4.9/gcov-src/libgcov-driver.c:436-438 | another value of one of the two checksums of a function gives another program checksum |
| ProgramSummary.MergeSummary | TP1-ARM/aarch64-linux-android-4.9/lib/gcc/aarch64-linux-android/4.9/gcov-src/libgcov-driver.c:926-999 | the merged summary, field by field, for a first and for a later run, with or without run_accounted; exactly when it reports a mismatch, and exactly when the histogram merge asserts |
| MatchUp.Share | TP1-ARM/aarch64-linux-android-4.9/lib/gcc/aarch64-linux-android/4.9/gcov-src/gcov-io.c:1067-1072 | the share of m counters is the truncated proportion of the bucket's sum: n * s <= m * c < n * s + n; it covers the counters taken, and what is left covers the counters left |
| MatchUp.MatchConserves | TP1-ARM/aarch64-linux-android-4.9/lib/gcc/aarch64-linux-android/4.9/gcov-src/gcov-io.c:1006-1099 | pairing off counters hottest first keeps the number of target counters and splits both sums without loss |
| MatchUp.MatchByRank | TP1-ARM/aarch64-linux-android-4.9/lib/gcc/aarch64-linux-android/4.9/gcov-src/gcov-io.c:1058-1060 | the counter of each rank gets the sum of both least values of that rank |
| MatchUp.MatchDescending | TP1-ARM/aarch64-linux-android-4.9/lib/gcc/aarch64-linux-android/4.9/gcov-src/gcov-io.c:1000-1002 | merged pieces come in non-increasing order of their least values |
| HistogramMerge.MergedConserves | TP1-ARM/aarch64-linux-android-4.9/lib/gcc/aarch64-linux-android/4.9/gcov-src/gcov-io.c:988-1125 | the merge keeps the target's number of counters, adds up both sums exactly in spite of truncating division, and keeps every bucket well formed, whichever side has more counters |
| MergeOrder.MergedByRank | TP1-ARM/aarch64-linux-android-4.9/lib/gcc/aarch64-linux-android/4.9/gcov-src/gcov-io.c:1084-1092 | in the merged histogram the counter of each rank is in the bucket of the summed least values of that rank, hence never below its target bucket |
| MergeOrder.LeftoverGoesToColdest | TP1-ARM/aarch64-linux-android-4.9/lib/gcc/aarch64-linux-android/4.9/gcov-src/gcov-io.c:1103-1120 | the bucket that takes the unmatched source sums is the lowest non-empty one, as the comment on tmp_i says |
| MergedSums.MergedHotSums | TP1-ARM/aarch64-linux-android-4.9/lib/gcc/aarch64-linux-android/4.9/gcov-src/gcov-io.c:1051-1120 | for every i, the sum that the merge gives to the buckets from i upwards, with the r counters they hold, is what the r hottest counters of both histograms stand for: at most their proportional part of the bucket that is cut, at least its truncated mean for each; stated from the two histograms |
| MergedSums.PartAfterDrop | TP1-ARM/aarch64-linux-android-4.9/lib/gcc/aarch64-linux-android/4.9/gcov-src/gcov-io.c:1066-1081 | the two-sided bound survives any number of truncations within one bucket |
| MergedSums.MergedLeast | TP1-ARM/aarch64-linux-android-4.9/lib/gcc/aarch64-linux-android/4.9/gcov-src/gcov-io.c:1058-1092 | the least value of a merged bucket is the sum of both least values at the rank of its coldest counter |
| MergeInPlace.Merge | TP1-ARM/aarch64-linux-android-4.9/lib/gcc/aarch64-linux-android/4.9/gcov-src/gcov-io.c:988-1125 | the in-place walk over both arrays computes exactly Merged; its last assertion holds if and only if the target has counters and the source has some or the target's bucket 0 is in use; otherwise the target is unchanged |
| MergeInPlace.MergeGroup | TP1-ARM/aarch64-linux-android-4.9/lib/gcc/aarch64-linux-android/4.9/gcov-src/gcov-io.c:1051-1092 | one group: the number merged, both shares, the bucket it goes to, and the scratch histogram afterwards |
| MergeInPlace.MergeBucket | TP1-ARM/aarch64-linux-android-4.9/lib/gcc/aarch64-linux-android/4.9/gcov-src/gcov-io.c:1008-1098 | all groups of one target bucket; the walk stays a partial matching of the two lists |
| MergeInPlace.CopyRest | TP1-ARM/aarch64-linux-android-4.9/lib/gcc/aarch64-linux-android/4.9/gcov-src/gcov-io.c:1025-1042 | with the source used up, the remaining target counters keep their buckets |
| MergeInPlace.AccumulatedIsJoin | TP1-ARM/aarch64-linux-android-4.9/lib/gcc/aarch64-linux-android/4.9/gcov-src/gcov-io.c:1090-1092 | testing the least value for 0 in place of 'not yet set' is right, because only bucket 0 can hold zeros |
| MergeInPlace.SumUnmatched | TP1-ARM/aarch64-linux-android-4.9/lib/gcc/aarch64-linux-android/4.9/gcov-src/gcov-io.c:1109-1115 | what is added at the end is the sum of the source counters without a partner |
| RunHistory.ComputedOk | TP1-ARM/aarch64-linux-android-4.9/lib/gcc/aarch64-linux-android/4.9/gcov-src/libgcov-driver.c:411-464 | computing a summary establishes: bucket sums add up to sum_all and bucket counts to num |
| RunHistory.MergeKeepsInvariant | TP1-ARM/aarch64-linux-android-4.9/lib/gcc/aarch64-linux-android/4.9/gcov-src/libgcov-driver.c:938-960 | a merge keeps that invariant if and only if the stored summary has runs or nothing has been accumulated |
| RunHistory.MergeGoesThroughIff | TP1-ARM/aarch64-linux-android-4.9/lib/gcc/aarch64-linux-android/4.9/gcov-src/gcov-io.c:1118-1119 | after runs whose merges went through, the next merge goes through if and only if the program has counters or no run before it was counted |
| RunHistory.NoCountersFailAtSecondRun | TP1-ARM/aarch64-linux-android-4.9/lib/gcc/aarch64-linux-android/4.9/gcov-src/gcov-io.c:1118-1119 | concrete case in which it does not: the second run of a program without counters, the first having been counted |
| RunHistory.Stored | TP1-ARM/aarch64-linux-android-4.9/lib/gcc/aarch64-linux-android/4.9/gcov-src/libgcov-driver.c:938-960 | after any sequence of runs whose merges go through: the histogram is well formed, sum_all is the sum over all runs, num the number of counters, run_max <= sum_max <= sum_all |
| RunHistory.StoredFields | TP1-ARM/aarch64-linux-android-4.9/lib/gcc/aarch64-linux-android/4.9/gcov-src/libgcov-driver.c:945-996 | over any sequence of runs: runs is the number of those not accounted before, run_max the largest counter of any (attained, 0 for none), sum_max the sum of the largest counters of each, and the checksum that of the program |
| RunHistory.StoredSums | TP1-ARM/aarch64-linux-android-4.9/lib/gcc/aarch64-linux-android/4.9/gcov-src/libgcov-driver.c:938-960 | the bucket sums of the stored histogram account for all runs but those whose histogram was replaced by a later one |
| RunHistory.StoredOkIff | TP1-ARM/aarch64-linux-android-4.9/lib/gcc/aarch64-linux-android/4.9/gcov-src/libgcov-driver.c:938-960 | the invariant holds after a sequence of runs if and only if the replaced runs were all zero; always if the first run is counted |
| RunHistory.CountedTwiceLosesARun | TP1-ARM/aarch64-linux-android-4.9/lib/gcc/aarch64-linux-android/4.9/gcov-src/libgcov-driver.c:400-403 | concrete case in which it fails: two executions with run_accounted already set |
| RunHistory.WorkingSetsDefined | TP1-ARM/aarch64-linux-android-4.9/lib/gcc/aarch64-linux-android/4.9/gcov-src/gcov-io.c:1231 | the final assertion of compute_working_sets holds for a stored summary if and only if there are counters and replaced runs make up at most 1/1024 of the execution count |
| RunHistory.StoredReadsBack | TP1-ARM/aarch64-linux-android-4.9/lib/gcc/aarch64-linux-android/4.9/gcov-src/gcov-io.c:664-729 | every reachable stored summary fits its record and is read back from the file unchanged |
| WorkingSets.ThresholdsOrdered | TP1-ARM/aarch64-linux-android-4.9/lib/gcc/aarch64-linux-android/4.9/gcov-src/gcov-io.c:1151-1165 | the 128 thresholds are non-decreasing and at most sum_all |
| WorkingSets.ThresholdIsPart | TP1-ARM/aarch64-linux-android-4.9/lib/gcc/aarch64-linux-android/4.9/gcov-src/gcov-io.c:1151-1165 | threshold k is (k + 1)/128 of sum_all, and the last one 1023/1024 of it, up to truncation, with bounds on both sides |
| WorkingSets.ComputeWorkingSets | TP1-ARM/aarch64-linux-android-4.9/lib/gcc/aarch64-linux-android/4.9/gcov-src/gcov-io.c:1138-1232 | the final assertion holds if and only if there are counters and the histogram's sum reaches the last threshold; then each entry has the least number of counters whose estimate reaches its threshold |
| WorkingSets.ScanBucket | TP1-ARM/aarch64-linux-android-4.9/lib/gcc/aarch64-linux-android/4.9/gcov-src/gcov-io.c:1197-1226 | the walk through one bucket, which counts all but the last counter at the least value |
| WorkingSetMeaning.EstimateSound | TP1-ARM/aarch64-linux-android-4.9/lib/gcc/aarch64-linux-android/4.9/gcov-src/gcov-io.c:1201-1213 | for every list of counters the histogram may stand for, the hottest c of them, the cut bucket taken in any order, add up to at least the estimate |
| WorkingSetMeaning.WorkingSetSound | TP1-ARM/aarch64-linux-android-4.9/lib/gcc/aarch64-linux-android/4.9/gcov-src/gcov-io.c:1173-1226 | for every such list, as many of the hottest counters as an entry says reach its threshold, and none is below its least counter |
| WorkingSetMeaning.WorkingSetCovers | TP1-ARM/aarch64-linux-android-4.9/lib/gcc/aarch64-linux-android/4.9/gcov-src/gcov-io.c:1127-1226 | for every such list, as many of the hottest counters as entry k says make up (k + 1)/128 of sum_all, or 1023/1024 for the last, up to that truncation |
| WorkingSetMeaning.WorkingSetExact | TP1-ARM/aarch64-linux-android-4.9/lib/gcc/aarch64-linux-android/4.9/gcov-src/gcov-io.c:1189-1226 | c of the hottest counters reach the threshold for every list the histogram may stand for if and only if c is at least the number in the entry |
| WorkingSetMeaning.MinCounterLies | TP1-ARM/aarch64-linux-android-4.9/lib/gcc/aarch64-linux-android/4.9/gcov-src/gcov-io.c:1218-1225 | the least counter of an entry is the least value of the bucket in which, counting from the hottest, its last counter lies |
| WorkingSetMeaning.WorkingSetsOrdered | TP1-ARM/aarch64-linux-android-4.9/lib/gcc/aarch64-linux-android/4.9/gcov-src/gcov-io.c:1218-1225 | from entry to entry the number of counters never falls and the least counter never rises |
| WorkingSetMeaning.CountersExist | TP1-ARM/aarch64-linux-android-4.9/lib/gcc/aarch64-linux-android/4.9/gcov-src/gcov-io.c:1201-1213 | every well-formed histogram whose sum fits 63 bits, stored and merged ones included, stands for some list of counters |
| WorkingSetMeaning.TallyConsistent | TP1-ARM/aarch64-linux-android-4.9/lib/gcc/aarch64-linux-android/4.9/gcov-src/libgcov-driver.c:339-391 | the histogram of a single run stands for the counters of that run |
| Crc32.Crc32Unsigned | TP1-ARM/aarch64-linux-android-4.9/lib/gcc/aarch64-linux-android/4.9/gcov-src/libgcov-driver.c:279-294 | the loop equals 32 steps of one shift-and-feed-back map on the exclusive or of its arguments |
| Crc32.CrcBijective | TP1-ARM/aarch64-linux-android-4.9/lib/gcc/aarch64-linux-android/4.9/gcov-src/libgcov-driver.c:279-294 | the checksum step is a bijection in each argument, with the inverse given |
| Crc32.ChecksumOfOne | TP1-ARM/aarch64-linux-android-4.9/lib/gcc/aarch64-linux-android/4.9/gcov-src/libgcov-driver.c:279-294 | the checksum of the word 1 is the polynomial 0x04c11db7 (IEEE 802.3, section 3.2.9) |
| Crc32.OneWordDetected | TP1-ARM/aarch64-linux-android-4.9/lib/gcc/aarch64-linux-android/4.9/gcov-src/libgcov-driver.c:420-464 | streams of words that differ in exactly one place have different checksums |
| BlockIO.Writer.Allocate | TP1-ARM/aarch64-linux-android-4.9/lib/gcc/aarch64-linux-android/4.9/gcov-src/gcov-io.c:322-345 | after the words for a request are reserved, disk and buffer before them still are all words written; a block of 1024 words goes to the disk when that many are in the buffer; the assertion on offset holds |
| BlockIO.Writer.WriteBlock | TP1-ARM/aarch64-linux-android-4.9/lib/gcc/aarch64-linux-android/4.9/gcov-src/gcov-io.c:310-316 | a block goes from the buffer to the disk |
| BlockIO.Writer.WriteUnsigned | TP1-ARM/aarch64-linux-android-4.9/lib/gcc/aarch64-linux-android/4.9/gcov-src/gcov-io.c:351-356 | appends one word to the words written |
| BlockIO.Writer.WriteCounter | TP1-ARM/aarch64-linux-android-4.9/lib/gcc/aarch64-linux-android/4.9/gcov-src/gcov-io.c:404-413 | appends the low and the high word of a counter |
| BlockIO.Writer.WriteTagLength | TP1-ARM/aarch64-linux-android-4.9/lib/gcc/aarch64-linux-android/4.9/gcov-src/gcov-io.c:485-491 | appends a tag and a length |
| BlockIO.Writer.Position | TP1-ARM/aarch64-linux-android-4.9/lib/gcc/aarch64-linux-android/4.9/gcov-src/gcov-io.c:72-75 | the position is the number of words written |
| BlockIO.Writer.Close | TP1-ARM/aarch64-linux-android-4.9/lib/gcc/aarch64-linux-android/4.9/gcov-src/gcov-io.c:248-267 | afterwards the disk holds exactly the words written, in order |
| BlockIO.Reader.ReadWords | TP1-ARM/aarch64-linux-android-4.9/lib/gcc/aarch64-linux-android/4.9/gcov-src/gcov-io.c:552-593 | finds the next one or two words if and only if there are as many, and leaves the rest in order; the assertions on excess and length hold |
| BlockIO.Reader.ReadUnsigned | TP1-ARM/aarch64-linux-android-4.9/lib/gcc/aarch64-linux-android/4.9/gcov-src/gcov-io.c:599-608 | takes the next word, 0 at the end |
| BlockIO.Reader.ReadCounter | TP1-ARM/aarch64-linux-android-4.9/lib/gcc/aarch64-linux-android/4.9/gcov-src/gcov-io.c:614-628 | takes the next counter, 0 at the end, where a single word left over is lost |
| BlockIO.CounterRoundTrip | TP1-ARM/aarch64-linux-android-4.9/lib/gcc/aarch64-linux-android/4.9/gcov-src/gcov-io.c:404-413 | every signed 64-bit counter survives being written as two words |
| BlockIO.CounterWordsAre | TP1-ARM/aarch64-linux-android-4.9/lib/gcc/aarch64-linux-android/4.9/gcov-src/gcov-io.c:404-413 | the two words of a counter are its two's complement, low word first |
| BlockIO.ItemsRoundTrip | TP1-ARM/aarch64-linux-android-4.9/lib/gcc/aarch64-linux-android/4.9/gcov-src/gcov-io.c:552-628 | any sequence of words and counters is read back as it was written, up to where it ends |
| SummaryRecord.FillBitVector | TP1-ARM/aarch64-linux-android-4.9/lib/gcc/aarch64-linux-android/4.9/gcov-src/gcov-io.c:506-516 | the bit vector has a bit for each bucket in use, and the count is their number |
| SummaryRecord.WriteSummary | TP1-ARM/aarch64-linux-android-4.9/lib/gcc/aarch64-linux-android/4.9/gcov-src/gcov-io.c:497-543 | the words written are tag, declared length and body of the summary |
| SummaryRecord.DeclaredLength | TP1-ARM/aarch64-linux-android-4.9/lib/gcc/aarch64-linux-android/4.9/gcov-src/gcov-io.h:287-288 | the declared length is the number of words in the body |
| RecordLayout.SummaryHeaderLayout | TP1-ARM/aarch64-linux-android-4.9/lib/gcc/aarch64-linux-android/4.9/gcov-src/gcov-io.c:517-526 | words 0 to 8 of the body are checksum, num, runs, sum_all, run_max and sum_max, the counters low word first; the body has 17 words and 5 for each bucket in use |
| RecordLayout.SummaryBitsLayout | TP1-ARM/aarch64-linux-android-4.9/lib/gcc/aarch64-linux-android/4.9/gcov-src/gcov-io.c:506-513 | bit i % 32 of word 9 + i / 32 is set if and only if bucket i is in use, for all 252 buckets |
| RecordLayout.SummaryBucketLayout | TP1-ARM/aarch64-linux-android-4.9/lib/gcc/aarch64-linux-android/4.9/gcov-src/gcov-io.c:531-541 | the five words of a bucket in use come after those of the buckets in use below it: number, least value, sum |
| SummaryRecord.ReadBuckets | TP1-ARM/aarch64-linux-android-4.9/lib/gcc/aarch64-linux-android/4.9/gcov-src/gcov-io.c:698-727 | on arbitrary words the decoding loop ends, reads one bucket for each bit, and asserts if and only if a bit has no bucket |
| SummaryRecord.ReadSummary | TP1-ARM/aarch64-linux-android-4.9/lib/gcc/aarch64-linux-android/4.9/gcov-src/gcov-io.c:664-729 | on arbitrary words, the summary and the rest of the file are those that ParseSummary gives; exactly when it asserts |
| SummaryRoundTrip.SummaryReadsBack | TP1-ARM/aarch64-linux-android-4.9/lib/gcc/aarch64-linux-android/4.9/gcov-src/gcov-io.c:497-729 | a written summary is read back with its empty buckets zeroed, leaving the file at the end of the record, with no assertion failing |
| SummaryRoundTrip.ReadableIff | TP1-ARM/aarch64-linux-android-4.9/lib/gcc/aarch64-linux-android/4.9/gcov-src/gcov-io.c:718 | on arbitrary words the reader's assertions hold if and only if the four highest bits of the last bit vector word are clear |
| Bits.RowsRoundTrip | TP1-ARM/aarch64-linux-android-4.9/lib/gcc/aarch64-linux-android/4.9/gcov-src/gcov-io.c:509-513 | the bits of the packed rows, listed in order, are the flags that were packed |
| FixupRecord.WriteComdatZeroFixup | TP1-ARM/aarch64-linux-android-4.9/lib/gcc/aarch64-linux-android/4.9/gcov-src/libgcov-driver.c:762-783 | the words written are tag, declared length, number of functions and packed flags |
| FixupRecord.FixupLengthIff | TP1-ARM/aarch64-linux-android-4.9/lib/gcc/aarch64-linux-android/4.9/gcov-src/libgcov-driver.c:765 | the declared length is the number of words that follow if and only if rounding up the number of functions does not overflow 32 bits |
| RecordLayout.FixupLayout | TP1-ARM/aarch64-linux-android-4.9/lib/gcc/aarch64-linux-android/4.9/gcov-src/libgcov-driver.c:762-783 | word 0 is the number of functions, and bit f % 32 of word 1 + f / 32 is set if and only if function f is flagged |
| FixupRecord.ReadComdatZeroFixup | TP1-ARM/aarch64-linux-android-4.9/lib/gcc/aarch64-linux-android/4.9/gcov-src/gcov-io.c:736-763 | on arbitrary words: exactly when the length assertion fails, exactly when a flag beyond the last would be written, and otherwise flag i is 1 if and only if bit i of the words read is set |
| FixupRecord.FixupReadsBack | TP1-ARM/aarch64-linux-android-4.9/lib/gcc/aarch64-linux-android/4.9/gcov-src/gcov-io.c:736-763 | for every number of functions: the length matches, no flag beyond the last is set, and flag i is set if and only if byte i was not zero |
| BuildInfo.ComputeStringArrayLen | TP1-ARM/aarch64-linux-android-4.9/lib/gcc/aarch64-linux-android/4.9/gcov-src/gcov-io.c:362-375 | the sum of padded string lengths in 32-bit arithmetic |
| BuildInfo.WriteStringArray | TP1-ARM/aarch64-linux-android-4.9/lib/gcc/aarch64-linux-android/4.9/gcov-src/gcov-io.c:380-397 | each string as its length in words and its NUL-padded bytes |
| BuildInfo.WriteBuildInfo | TP1-ARM/aarch64-linux-android-4.9/lib/gcc/aarch64-linux-android/4.9/gcov-src/libgcov-driver.c:790-806 | the declared length is the number of words that follow, modulo 2^32; nothing is written without strings |
| BuildInfo.ReadStringArray | TP1-ARM/aarch64-linux-android-4.9/lib/gcc/aarch64-linux-android/4.9/gcov-src/gcov-io.c:769-783 | reads as many strings as asked for and counts their words |
| BuildInfo.ReadBuildInfo | TP1-ARM/aarch64-linux-android-4.9/lib/gcc/aarch64-linux-android/4.9/gcov-src/gcov-io.c:790-801 | succeeds if and only if the words of the strings are as many as declared |
| BuildInfo.StringReadsBack | TP1-ARM/aarch64-linux-android-4.9/lib/gcc/aarch64-linux-android/4.9/gcov-src/gcov-io.c:385-393 | a string without NUL bytes is what is found in its padded words |
| RecordLayout.StringLayout | TP1-ARM/aarch64-linux-android-4.9/lib/gcc/aarch64-linux-android/4.9/gcov-src/gcov-io.c:385-393 | byte i of a string, or NUL, lies at bits 8 * (i % 4) of word i / 4; there is room for one NUL and for no further word |
| BuildInfo.BuildInfoReadsBack | TP1-ARM/aarch64-linux-android-4.9/lib/gcc/aarch64-linux-android/4.9/gcov-src/gcov-io.c:769-801 | every list of strings is read back up to its padding, and the reader's check passes |
| OneValue.OneValueProfilerBody | TP1-ARM/aarch64-linux-android-4.9/lib/gcc/aarch64-linux-android/4.9/gcov-src/libgcov-profiler.c:74-86 | one sample changes the three counters of its table, and no other |
| OneValue.CounterBounds | TP1-ARM/aarch64-linux-android-4.9/lib/gcc/aarch64-linux-android/4.9/gcov-src/libgcov-profiler.c:63-71 | for every history of samples and merges, the counter bounds how far any value is from half of all samples |
| OneValue.MajorityFound | TP1-ARM/aarch64-linux-android-4.9/lib/gcc/aarch64-linux-android/4.9/gcov-src/libgcov-profiler.c:63-71 | a value making up more than half of all samples, over all runs and merged in any order or nesting, is the candidate; the last counter is the number of samples |
| OneValue.CandidateChangesIff | TP1-ARM/aarch64-linux-android-4.9/lib/gcc/aarch64-linux-android/4.9/gcov-src/libgcov-profiler.c:74-86 | a sample replaces the candidate if and only if it differs and the counter is 0, a merge if and only if the other counter is larger, which decides ties |
| OneValue.MergeSingle | TP1-ARM/aarch64-linux-android-4.9/lib/gcc/aarch64-linux-android/4.9/gcov-src/libgcov-merge.c:233-257 | every triple is merged with the triple read for it, counters behind them stay; fails if and only if the number is no multiple of 3 |
| OneValue.MergeDelta | TP1-ARM/aarch64-linux-android-4.9/lib/gcc/aarch64-linux-android/4.9/gcov-src/libgcov-merge.c:272-297 | the same on quadruples, whose first counter stays |
| IcallTopN.SortNVals | TP1-ARM/aarch64-linux-android-4.9/lib/gcc/aarch64-linux-android/4.9/gcov-src/libgcov-driver.c:1008-1026 | sorts the pairs of an array in place, and leaves all around them alone |
| IcallTopN.SortCorrect | TP1-ARM/aarch64-linux-android-4.9/lib/gcc/aarch64-linux-android/4.9/gcov-src/libgcov-driver.c:1003-1005 | that sort is a descending permutation, and stable |
| IcallTopN.MergeConserves | TP1-ARM/aarch64-linux-android-4.9/lib/gcc/aarch64-linux-android/4.9/gcov-src/libgcov-merge.c:159-196 | before truncation every target keeps all its calls; the pairs kept are in descending order, and none that is dropped is larger |
| IcallTopN.PlacesKept | TP1-ARM/aarch64-linux-android-4.9/lib/gcc/aarch64-linux-android/4.9/gcov-src/libgcov-merge.c:165-187 | entries never move while others are combined, so old targets come first and new ones follow in the order in which they were read, which decides ties in the stable sort |
| TopNHistory.MergedClean | TP1-ARM/aarch64-linux-android-4.9/lib/gcc/aarch64-linux-android/4.9/gcov-src/libgcov-merge.c:159-196 | two tables whose counted targets differ and are not 0, with any number of empty pairs, are merged into such a table |
| IcallExit.SortIcallTopNCounter | TP1-ARM/aarch64-linux-android-4.9/lib/gcc/aarch64-linux-android/4.9/gcov-src/libgcov-driver.c:1031-1046 | at the end of a run the table of each call site is sorted, its eviction count and all other counters stay; fails if and only if the number of counters is no multiple of 9 |
| IcallExit.ScaleIcallTopNCounter | TP1-ARM/aarch64-linux-android-4.9/lib/gcc/aarch64-linux-android/4.9/gcov-src/libgcov-driver.c:1083-1099 | then each count of each table is multiplied by the sampling period if that is more than 1, and nothing else changes |
| IcallTopN.CallsOfScaled | TP1-ARM/aarch64-linux-android-4.9/lib/gcc/aarch64-linux-android/4.9/gcov-src/libgcov-driver.c:1094-1099 | scaling multiplies what is counted of each target |
| TopNHistory.NeverOvercounted | TP1-ARM/aarch64-linux-android-4.9/lib/gcc/aarch64-linux-android/4.9/gcov-src/libgcov-driver.c:1156-1157 | over all runs, whatever was sampled and however tables were sorted, scaled and merged, all entries of a value together count no more than the calls that its samples stand for: each sample as many as its table has been scaled by since |
| TopNHistory.NeverMoreThanSampledIff | TP1-ARM/aarch64-linux-android-4.9/lib/gcc/aarch64-linux-android/4.9/gcov-src/libgcov-driver.c:1083-1084 | that no value is ever counted more than it was sampled holds of a sampling period if and only if it is at most 1 |
| TopNHistory.SampledOnceCountedTwice | TP1-ARM/aarch64-linux-android-4.9/lib/gcc/aarch64-linux-android/4.9/gcov-src/libgcov-driver.c:1094-1099 | concrete case in which it does not: a period of 2 and one sample |
| TopNHistory.StaysGood | TP1-ARM/aarch64-linux-android-4.9/lib/gcc/aarch64-linux-android/4.9/gcov-src/libgcov-driver.c:1156-1157 | over all runs without samples of 0, with tables sorted, scaled and merged, counted values stay distinct, and the eviction count stays below 3000 |
| IcallMerge.AddTable | TP1-ARM/aarch64-linux-android-4.9/lib/gcc/aarch64-linux-android/4.9/gcov-src/libgcov-merge.c:165-187 | the scratch array holds both tables combined, in at most eight pairs |
| IcallMerge.MergeSite | TP1-ARM/aarch64-linux-android-4.9/lib/gcc/aarch64-linux-android/4.9/gcov-src/libgcov-merge.c:149-197 | one call site gets the merged table; its eviction count and all other counters stay |
| IcallMerge.MergeIcallTopN | TP1-ARM/aarch64-linux-android-4.9/lib/gcc/aarch64-linux-android/4.9/gcov-src/libgcov-merge.c:144-198 | all call sites are merged with the tables read for them; fails if and only if the number of counters is no multiple of 9 |
| TopNProfiler.Scan | TP1-ARM/aarch64-linux-android-4.9/lib/gcc/aarch64-linux-android/4.9/gcov-src/libgcov-profiler.c:283-299 | a hit counts up the first entry of the value; a miss finds the entry that gives way and whether one is empty |
| TopNProfiler.FindBottom | TP1-ARM/aarch64-linux-android-4.9/lib/gcc/aarch64-linux-android/4.9/gcov-src/libgcov-profiler.c:328-342 | finds as many different entries as values are wanted, no other entry being less frequent than any of them |
| TopNProfiler.ClearBottom | TP1-ARM/aarch64-linux-android-4.9/lib/gcc/aarch64-linux-android/4.9/gcov-src/libgcov-profiler.c:318-349 | a clearing zeroes exactly those entries and the eviction count |
| TopNProfiler.TopNValueProfilerBody | TP1-ARM/aarch64-linux-android-4.9/lib/gcc/aarch64-linux-android/4.9/gcov-src/libgcov-profiler.c:259-352 | one sample, for any table and any positive number of wanted values, is a step as Step describes it; counters behind the table stay |
| TopNRuns.LeastUsedIsLeast | TP1-ARM/aarch64-linux-android-4.9/lib/gcc/aarch64-linux-android/4.9/gcov-src/libgcov-profiler.c:283-299 | the entry that gives way is the last empty one if any is empty, and otherwise the first of the least frequent |
| TopNRuns.ClearsIff | TP1-ARM/aarch64-linux-android-4.9/lib/gcc/aarch64-linux-android/4.9/gcov-src/libgcov-profiler.c:310-352 | a new value that finds no empty entry raises the eviction count, and clears the table if and only if it is the 3000th |
| TopNRuns.ClearingKeepsTheFrequent | TP1-ARM/aarch64-linux-android-4.9/lib/gcc/aarch64-linux-android/4.9/gcov-src/libgcov-profiler.c:326-349 | a clearing removes exactly topn_val different entries, each counted no more often than any that stays |
| TopNRuns.StepKeepsIff | TP1-ARM/aarch64-linux-android-4.9/lib/gcc/aarch64-linux-android/4.9/gcov-src/libgcov-profiler.c:259-352 | a step keeps counted values distinct and the eviction count below the threshold, unless the sample is 0 and an empty entry comes before a counted entry of 0; if and only if |
| TopNZeros.ZerosCountedTwice | TP1-ARM/aarch64-linux-android-4.9/lib/gcc/aarch64-linux-android/4.9/gcov-src/libgcov-profiler.c:283-349 | a run from the zeroed table, for one value, after which both entries count zeros |
| TopNRuns.RunIsSound | TP1-ARM/aarch64-linux-android-4.9/lib/gcc/aarch64-linux-android/4.9/gcov-src/libgcov-profiler.c:246-255 | at every point of every run no entry counts more than was sampled of its value; without zero samples counted values stay distinct and the eviction count stays below 3000 |
| TopNRuns.FewValuesCountedExactly | TP1-ARM/aarch64-linux-android-4.9/lib/gcc/aarch64-linux-android/4.9/gcov-src/libgcov-profiler.c:246-255 | while there are no more values than entries, nothing is evicted and every count is exact |
| ArmMemory.Memory.MemRead32 | TP1-ARM/src/shell.c:73-90 | the little-endian word at an address of the first region that has it, 0 elsewhere |
| ArmMemory.Memory.MemWrite32 | TP1-ARM/src/shell.c:99-114 | four bytes of one region change, none if no region has the address |
| ArmMemory.RegionOf | TP1-ARM/src/shell.c:36-53 | the regions are disjoint: an address is in at most one |
| ArmMemory.RegionsAre | TP1-ARM/src/shell.c:36-53 | the three regions, by address |
| ArmMemory.ByteThroughWord | TP1-ARM/src/sim.c:387-391 | reading an aligned word, masking, shifting and writing it back stores one byte and changes no other byte of any region |
| ArmMemory.HalfThroughWord | TP1-ARM/src/sim.c:518-524 | the same for two bytes, less significant first |
| ArmMemory.ByteFromWord | TP1-ARM/src/sim.c:429-432 | shifting and masking an aligned word yields the byte at the address |
| ArmMemory.LoadedNumber | TP1-ARM/src/shell.c:80-83 | a word read at a multiple of 4 is the little-endian number of the four bytes there |
| ArmSimulator.Simulator.EffectiveAddress | TP1-ARM/src/sim.c:376-383 | register plus signed nine-bit offset, modulo 2^64 |
| ArmSimulator.Simulator.ImplementSturb | TP1-ARM/src/sim.c:373-393 | for every effective address exactly the byte at that address modulo 2^32 changes |
| ArmSimulator.Simulator.ImplementSturh | TP1-ARM/src/sim.c:505-526 | for every effective address exactly the two bytes at the even address at or below it, modulo 2^32, change |
| ArmSimulator.Simulator.ImplementLdurb | TP1-ARM/src/sim.c:417-435 | loads the byte at the effective address modulo 2^32, zero-extended |
| ArmSimulator.Simulator.ImplementLdur | TP1-ARM/src/sim.c:395-415 | loads the double word at the effective address rounded down to a multiple of 4, modulo 2^32 |
| ArmSimulator.Simulator.ImplementLdurh | TP1-ARM/src/sim.c:528-548 | loads the halfword at the even address modulo 2^32, zero-extended, into the latch that the end of the cycle overwrites |
| ArmExecution.StoredBytesAre | TP1-ARM/src/sim.c:357-526 | STUR stores four bytes of the register, STURH two and STURB one, byte k being the register divided by 2^(8k) modulo 256 |
| ArmExecution.LoadedBytesAre | TP1-ARM/src/sim.c:395-435 | LDURB loads one byte, LDUR the little-endian number of eight |
| ArmExecution.ByteAfterStore | TP1-ARM/src/sim.c:373-393 | a byte store changes the byte at its address, if a region has it, and no other |
| ArmExecution.HalfAfterStore | TP1-ARM/src/sim.c:505-526 | a halfword store at an even address changes two bytes and no other |
| ArmExecution.StoreReachesIff | TP1-ARM/src/sim.c:387 | cutting the address to 32 bits is harmless if and only if it is below 2^32, or neither address is in a region |
| ArmExecution.ByteAfterRun | TP1-ARM/src/sim.c:357-526 | after every run, each byte of each region is the one that a store put there last, or the one from before the run |
| ArmExecution.StoreThenLoad | TP1-ARM/src/sim.c:373-435 | a byte that STURB stores into a region is what an LDURB from the same address loads, zero-extended, after any number of further instructions none of which puts a byte there |
| ArmDecode.FindOpcode | TP1-ARM/src/sim.c:149-157 | the first table row with the opcode, if there is one |
| ArmDecode.DecodeOpcode | TP1-ARM/src/sim.c:144-198 | rows are looked up with eleven, six, eight and ten leading bits, in this order |
| ArmDecode.OwnRow | TP1-ARM/src/sim.c:69-97 | no opcode of the table is hidden by an earlier row |
| ArmDecode.EntryIff | TP1-ARM/src/sim.c:144-198 | for all words and all rows that can be reached: a word belongs to a row if and only if its eleven, six, eight or ten leading bits, read as a number, are the row's opcode, with three exceptions |
| ArmDecode.PaddingIff | TP1-ARM/src/sim.c:144-198 | the words that match the zero padding of the table are those that begin with six zeros, except 00000000101 |
| ArmDecode.RowIff | TP1-ARM/src/sim.c:144-198 | a word that begins with the opcode of a row belongs to that row, for all rows and words, except for branches B whose offset begins with 10001, 10100 or 10101; if and only if |
| ArmDecode.DecodedFits | TP1-ARM/src/sim.c:200-245 | the fields that an instruction uses are in range, whatever the unset ones hold |
| ArmFields.DecodedFields | TP1-ARM/src/sim.c:200-245 | for every word that decodes: each field of its format is the quotient and remainder of the word as a number, and all other fields are as they were left |
| ArmFields.DecodedAs | TP1-ARM/src/sim.c:69-97 | a word whose leading bits, as a number, are those of one of 25 instructions decodes to it with these fields |
| ArmSimulator.Simulator.ImplementSubsImmediate | TP1-ARM/src/sim.c:275-290 | difference modulo 2^64, flags N and Z from it, register written unless it is 31 |
| ArmSimulator.Simulator.ImplementSubsExtendedRegister | TP1-ARM/src/sim.c:292-307 | the same with a register operand |
| ArmSimulator.Simulator.ImplementBCond | TP1-ARM/src/sim.c:449-493 | the program counter after a conditional branch, for all condition fields and offsets, modulo 2^64 |
| ArmSimulator.Simulator.ImplementCbz | TP1-ARM/src/sim.c:551-589 | the program counter after CBZ |
| ArmSimulator.Simulator.ImplementCbnz | TP1-ARM/src/sim.c:590-625 | the program counter after CBNZ, whose sign comes from a field that decoding leaves unset |
| ArmSimulator.Simulator.ImplementB | TP1-ARM/src/sim.c:627-640 | the program counter after B, whose offset has six bits |
| ArmSimulator.Simulator.ImplementBr | TP1-ARM/src/sim.c:642-659 | the program counter after BR; a target that is no multiple of 4 is rejected |
| ArmSimulator.Simulator.ExecuteData | TP1-ARM/src/sim.c:248-355 | each data instruction writes its register and flags in the next latch, and HLT alone stops the machine |
| ArmExecution.TakenIff | TP1-ARM/src/sim.c:454-479 | the flags of a comparison give the relation of the signed operands if and only if the condition is EQ or NE or the difference does not overflow |
| ArmExecution.OverflowMisleads | TP1-ARM/src/sim.c:467-470 | concrete case in which they do not: the smallest number is not taken to be less than 1 |
| ArmExecution.CompareThenBranch | TP1-ARM/src/sim.c:275-493 | SUBS then B.cond: the program counter moves by 4 times the signed 19-bit offset if and only if the relation holds, and by 4 otherwise (section C1.2.4 of DDI 0487) |
| ArmPrograms.TwoCycles | TP1-ARM/src/shell.c:140-145 | the same from the numbers of two words in memory, through decoding and two cycles |
| ArmPrograms.StoreThenLoadCycles | TP1-ARM/src/sim.c:373-435 | from two words in memory with the leading bits of STURB and LDURB: exactly one byte of the memory changes, to the byte of the register named, and exactly one register, to the byte at the address named, which is the one just stored if the addresses agree |
| ArmExecution.BranchTargets | TP1-ARM/src/sim.c:551-659 | CBZ goes to its signed 19-bit offset if the register is zero, BR to a register that is a multiple of 4, B forward by its six-bit offset |
| ArmExecution.CbnzTargetIff | TP1-ARM/src/sim.c:590-625 | CBNZ goes where it should if and only if the register is zero or the field of B left over has the sign of its offset |
| ArmData.DataEffect | TP1-ARM/src/sim.c:248-355 | no register changes but the destination, none at all for 31 of SUBS and ADD with registers; flags, where set, are the sign and the zero test of the result |
| ArmData.ArithmeticInstruction | TP1-ARM/src/sim.c:248-307 | results of ADD, ADDS, SUBS and MUL are those of the signed operands if and only if these are in the range of 64 bits |
| ArmData.LogicalInstruction | TP1-ARM/src/sim.c:314-503 | bit k of the result of ANDS, EOR and ORR is and, exclusive or, and or of bit k of the operands |
| ArmData.ShiftedBits | TP1-ARM/src/sim.c:343-355 | LSL and LSR move each bit by the number of places given, bits that leave the register are lost |
| ArmExecution.PcStaysAligned | TP1-ARM/src/shell.c:154-170 | over every run, however long, the program counter stays a multiple of 4, with 64-bit wrap-around and rejected BR targets |
| ArmSimulator.Simulator.ProcessInstruction | TP1-ARM/src/sim.c:100-132 | the next latch, the memory and the run bit after one instruction are those of the specification, which describes effects by kind rather than by instruction |
| ArmSimulator.Simulator.Cycle | TP1-ARM/src/shell.c:140-145 | afterwards both latches agree and hold the state after the instruction at the program counter |
| ArmSimulator.Simulator.Run | TP1-ARM/src/shell.c:154-170 | runs n instructions or up to a halt; both latches agree, and the program counter stays a multiple of 4 |
| ArmPrograms.JumpToItself | TP1-ARM/src/shell.c:245-250 | a branch B to itself can be executed any number of times and never halts, so that go does not end |
| ArmSimulator.Simulator.Go | TP1-ARM/src/shell.c:238-252 | if the machine halts within some number of instructions, runs up to that halt |
| ArmSimulator.Simulator.LoadProgram | TP1-ARM/src/shell.c:345-372 | the words of the program are stored in order from 0x400000, and the program counter is set to it |
| ArmSimulator.Simulator.Initialize | TP1-ARM/src/shell.c:382-393 | the last program is loaded over the earlier ones, both latches agree, the program counter is 0x400000 |
| ArmSimulator.Simulator.Input | TP1-ARM/src/shell.c:308-314 | a register set by command is set in both latches, which keep agreeing |
| ArmSimulator.ProgramLoaded | TP1-ARM/src/shell.c:358-363 | each word of a program is found at its place, as far as the text region goes |

## Left out

- File opening, locking, seeking and truncating, I/O errors, and the count of words read beyond the end of a file.
- `gcov_seek` and writing into the middle of a file: a writer starts with an empty file.
- The variants for the kernel, for the compiler and for gcov-tool: other buffers, other byte orders, merge weights and the fixed-up function flag (weight 1 and flag 0 are assumed).
- The cross-check of summaries between data files that is compiled in without file locking.
- The whole merge of a data file (`gcov_exit_merge_gcda`), the dump and module information: mostly error paths and code that is not part of this model.
- Mutexes, thread-local variables and atomic profiler variants: each profiler is modelled as if it ran alone.
- The sampling of calls: with a period above 1 only some calls reach the profilers, chosen by a counter that all call sites share, and the counts of direct calls are scaled as well.
- The merges of plain, or-ed and direct-call counters and of time profiles, and the interval, power-of-two, average and or-ing profilers: one assignment each.
- 64-bit overflow: where the summary and its histogram rely on its absence the bounds are stated; the counters of the value profilers are unbounded numbers.
- IcallExit.ScaleIcallTopNCounter: requires whole call sites, which the sorting before it has asserted.
- The reading of negative counters by anything but the record readers: SummaryRecord.ContentsOf gives the summary of a record that has none, as every record that is written.
- BuildInfo.WriteBuildInfo: strings are shorter than 2^32 bytes and the byte order is little-endian.
- TopNProfiler.TopNValueProfilerBody: requires at least one wanted value, because a table for none has no entry for the sample, and the source would count it behind the table.
- MergeInPlace.Merge: the number of counters times the sum of a bucket stays below 2^63, as the source's product needs it to.
- RunHistory.Stored: the runs are of one program with a fixed number of counters, there are fewer than 2^32 runs, and the sum of all counters, also times their number, stays below 2^63. It is defined as long as merges go through; RunHistory.MergeGoesThroughIff says exactly how long.
- ProgramSummary.Summary.ComputeSummary: requires that the number of counters fits 32 bits and their sum 63.
- ProgramSummary.MergeSummary: requires well-formed histograms where it merges them, and sums that fit 63 bits; it does not say what the summary is after a failed assertion.
- WorkingSets.ComputeWorkingSets: requires a well-formed histogram, which every reachable summary has.
- ArmSimulator.Simulator.ProcessInstruction: requires that the word at the program counter is in the opcode table, that ADD (extended register) names one of the 32 registers, and that LSL does not shift by 64. For other words C leaves open what happens.
- ArmSimulator.Simulator.Cycle: requires the same.
- ArmSimulator.Simulator.Run: requires the same of each instruction on the way.
- ArmSimulator.Simulator.Go: requires that the machine halts, within a number of instructions that is given for the proof only; there are programs for which the source's loop does not end (ArmPrograms.JumpToItself). Every beginning of an endless run is covered by Run.
- ArmSimulator.Simulator.Initialize: a program's words come as a sequence; reading the program file, the command line and the dumps are not modelled, and the instruction count does not wrap around.
- Printed messages, such as the warning for high BR targets.
