# Rainflow counting core, modelled in Dafny

This project models the streaming rainflow counter of `rainflow.c`.
Samples are fed one at a time, in chunks or as already stamped tuples.
The turning-point filter (`RFC_tp_next`) drops samples inside the hysteresis band.
It keeps the local extrema during startup and holds the latest candidate turning point as an *interim point* in slot `residue[residue_cnt]`.
Every confirmed turning point goes through the margin delay of `RFC_feed_once`.
It is then recorded in the turning-point history (`RFC_tp_add`) and handed to the counting engine.
The engine is either the 4-point method (`RFC_cycle_find_4ptm`) or Clormann–Seeger's HCM (`RFC_cycle_find_hcm`).
The engine closes cycles and passes them to `RFC_cycle_process`.
That function updates the rainflow matrix, the range-pair histogram, the level-crossing histogram and the pseudo damage.
`RFC_finalize` folds the interim point into the residue and locks the history.
It then applies a residue strategy (ignore, discard, half or full cycles, repeated) and ends in FINISHED or ERROR.
`RFC_lc_from_matrix` and `RFC_rp_from_matrix` rebuild the two histograms from the matrix.

The model has two layers.

* **Values** (`RfcTypes`, `RfcSession`, `RfcFilter`, `RfcEngines`, `RfcMatrix`, `RfcPipeline`).
  A `Session` datatype holds the whole context: configuration, residue, HCM stack, counters, history and filter state.
  Every operation of the core is a function on sessions, and the properties are lemmas about those functions.
* **State** (`RfcContext.Rfc`).
  A class whose fields are the context and whose fixed-size buffers are arrays.
  The residue, the HCM stack, the matrix, `rp` and `lc` are arrays; the history, which the source grows on demand, is a sequence.
  Each method that changes the context is proved to leave `View()` equal to the corresponding session function applied to the old view.
  The loops of the source (removal, the 4-point search, HCM's label-2 loop, feeding, the pairwise weighting, the histogram rebuilds) are `while` loops with their invariants.

Values are integers.
The source's floating-point samples are modelled as scaled integers, so 1.98 is 198 at two decimals; `RfcTraces` uses this scale for the source's own test series.
The source's `assert`s become preconditions, named `…Fits`, except the ones listed under "Left out".
The damage model (`RFC_damage_calc`) is a parameter `damageOf` of the session.

## Model

| member | source | states |
|---|---|---|
| RfcTypes.ValueDelta | rainflow.c:1814-1824 | the sign is -1 exactly when `to < from`, otherwise +1, and sign times magnitude is `to - from` |
| RfcTypes.Quantize | rainflow.c:150 | the class `c` of a value at or above the offset is the one with `c·width <= v - offset < (c+1)·width` |
| RfcTypes.QuantizeMonotone | rainflow.c:150 | quantising keeps the order of values |
| RfcTypes.QuantizeBucket | rainflow.c:150 | every value inside a class's bucket quantises to that class |
| RfcTypes.Clamp | rainflow.c:1604-1611 | a class at or above the class count is clamped to the last class; smaller classes are kept |
| RfcTypes.Rank | rainflow.c:386 | the state order INIT0 < … < ERROR used by the `state < …` / `state >= …` guards (of `RFC_feed` here, of `RFC_feed_tuple` at rainflow.c:430 and the assert of `RFC_finalize` at rainflow.c:466), with INIT0 first and ERROR last |
| RfcSession.ClassOf | rainflow.c:1604-1611 | the class a counted point falls into is below the class count |
| RfcSession.Cell | rainflow.c:1625-1630 | the row-major matrix index from·count + to of two classes lies inside the count² matrix |
| RfcSession.AddRange | rainflow.c:1657-1684 | adding the increment over `[lo, hi)` keeps the length of the level-crossing histogram |
| RfcSession.Process | rainflow.c:1585-1693 | counting a cycle changes only the counters and keeps the buffers sized |
| RfcSession.ProcessCells | rainflow.c:1594-1684 | a cycle inside the hysteresis band (with margins enforced) or within one class changes nothing; otherwise exactly the from/to matrix cell, the range bucket and the lc entries in `[min, max)` of the enabled direction grow by the current increment, and nothing else changes |
| RfcSession.ProcessAll | rainflow.c:1585-1693 | counting a list of cycles changes only the counters |
| RfcSession.ProcessAllAppend | rainflow.c:1585-1693 | counting `xs + ys` is counting `xs` and then `ys`, and it fits exactly when both halves fit in turn |
| RfcSession.ProcessAllCons | rainflow.c:1585-1693 | counting `[c] + cs` is counting `c` and then `cs` |
| RfcSession.ProcessAllPrefix | rainflow.c:1585-1693 | when a list fits, its prefix fits and so does the rest after the prefix |
| RfcSession.ProcessFrame | rainflow.c:1585-1693 | the counters a cycle produces depend only on the counters and the configuration, not on the residue, the stack or the history |
| RfcSession.ProcessAllFrame | rainflow.c:1585-1693 | the same holds for a list of cycles |
| RfcFilter.AppendGuardAsWrittenTooWeak | rainflow.c:1373 | the guard as written, `cnt < cap`, admits `cnt = 1, cap = 2`, where slot `cnt + 1` does not exist |
| RfcFilter.UpdateExtrema | rainflow.c:1256-1275 | the local minimum only falls and the maximum only rises; when one changes, the slope is falling exactly when the sample is a new minimum |
| RfcFilter.Append | rainflow.c:1368-1378 | confirming the interim point returns it, advances the count by one and puts the sample in the new interim slot |
| RfcFilter.TpNextBusy | rainflow.c:1256-1297 | during startup a point is emitted exactly when the extrema span more than the hysteresis; then the state becomes BUSY_INTERIM with the sample as the interim point, and only the filter state and residue change |
| RfcFilter.TpNextInterim | rainflow.c:1299-1364 | after startup a point is emitted exactly when the sample reverses against the slope by more than the hysteresis; the sample is then the new interim point |
| RfcFilter.TpNext | rainflow.c:1221-1381 | `RFC_tp_next` emits a point exactly when the sample confirms one, grows the residue count by one exactly then, leaves the state BUSY or BUSY_INTERIM and changes only the filter state and the residue |
| RfcFilter.StartupUnchangedEmitsNothing | rainflow.c:1256-1297 | a startup sample between the current extrema never confirms a point, so the unset slope direction is never read |
| RfcFilter.TpNextFirstSample | rainflow.c:1247-1253 | the first sample after INIT seeds both extrema, emits nothing and moves to BUSY |
| RfcFilter.TpNextStartup | rainflow.c:1256-1297 | within the band nothing is emitted; beyond it, the earlier extremum (the maximum for a falling sample, the minimum for a rising one) is the first turning point, the slope points to the sample, the sample is the interim point and the confirmed points are untouched |
| RfcFilter.TpNextContinue | rainflow.c:1336-1346 | a sample in the slope's direction replaces the interim point, emits nothing and changes nothing else |
| RfcFilter.TpNextConfirm | rainflow.c:1347-1378 | a reversal beyond the hysteresis appends the interim point to the confirmed points, returns it, stores the new slope and makes the sample the interim point |
| RfcFilter.TpNextWithinBand | rainflow.c:1347-1364 | a reversal within the hysteresis band changes nothing |
| RfcEngines.RemoveItem | rainflow.c:853-884 | removal lowers the count by `count` and changes only the residue, whose length stays |
| RfcEngines.RemoveItemEffect | rainflow.c:853-884 | the confirmed points after removal are those before `index` followed by those after the removed block; the interim point moves down with them; slots from the old end minus `count` on keep their contents |
| RfcEngines.Close4 | rainflow.c:1459-1472 | one closing step counts the inner pair, lowers the count by two and changes nothing else but the counters and the residue |
| RfcEngines.Close4IsRemoval | rainflow.c:1459-1472 | a closing step is `RFC_cycle_process` on B-C followed by `RFC_residue_remove_item(idx + 1, 2)` |
| RfcEngines.Find4 | rainflow.c:1432-1476 | after the 4-point method no four last confirmed points are closable |
| RfcEngines.Find4Counts | rainflow.c:1432-1476 | the 4-point method counts exactly the cycles it closes, in order, and changes nothing else but the residue |
| RfcEngines.Find4KeepsPrefix | rainflow.c:1432-1476 | points below the last survivor are never touched, and when nothing closes the session is unchanged |
| RfcEngines.Label2 | rainflow.c:1505-1555 | the closing loop only pops: IZ never rises, IR rises by at most one, and the cursors stay in range and settled |
| RfcEngines.EnclosedAsSwapped | rainflow.c:1443-1457 | the closing test after swapping B, C and A, D into order holds exactly when both inner points lie between the outer ones |
| RfcEngines.NoTurnIsNoReversal | rainflow.c:1512-1539 | the sign tests on the stack mean that I-J-K, or 0-J-K at the residual level, does not strictly reverse at J |
| RfcEngines.Label2Closes | rainflow.c:1505-1555 | every cycle I-J that HCM closes against K is a true reversal at J, K reaches at least as far from J as I does, and both points come from the stack |
| RfcEngines.Label2Stops | rainflow.c:1505-1555 | label 2 stops only when no pair is above the residual level, or the top pair reverses at J but K reaches less far from J than I does, or at the residual level J reverses against zero while K does not reach beyond it |
| RfcEngines.Seed | rainflow.c:1500-1503 | an empty stack is seeded with the first point and IR becomes 1 |
| RfcEngines.HcmStep | rainflow.c:1500-1560 | after one point, K is on top of the stack at IZ and the cursors are settled |
| RfcEngines.HcmLoop | rainflow.c:1486-1572 | HCM consumes every confirmed point, changes only the counters, residue and stack, and moves the interim point to slot 0 |
| RfcEngines.HcmCounts | rainflow.c:1486-1572 | HCM counts exactly the cycles it closes, in order |
| RfcEngines.HcmFind | rainflow.c:1486-1572 | `RFC_cycle_find_hcm` leaves no confirmed point in the residue, keeps the interim point at slot 0 and stores the cursors back in base 1 |
| RfcEngines.HcmNext | rainflow.c:1486-1572 | one pass of the main loop removes one point, puts it on top of the stack and keeps the last confirmed point |
| RfcEngines.HcmLoopTop | rainflow.c:1558-1560 | after HCM the last confirmed point is on top of the stack |
| RfcEngines.HcmFindTop | rainflow.c:1558-1571 | after `RFC_cycle_find_hcm` the last confirmed point is at base-1 cursor IZ |
| RfcMatrix.CellUnique | rainflow.c:1625-1630 | distinct class pairs have distinct matrix cells |
| RfcMatrix.Bump | rainflow.c:1625-1641 | bumping a cell adds the increment to that cell and keeps the matrix square |
| RfcMatrix.BumpCell | rainflow.c:1625-1641 | a bump changes only its own cell |
| RfcMatrix.RowSumBump | rainflow.c:1899-1916 | a bump changes a row sum by the increment exactly when the bumped cell is in the summed part |
| RfcMatrix.RectSumBump | rainflow.c:1899-1916 | the same holds for a rectangle of rows |
| RfcMatrix.RectSumZero | rainflow.c:1899-1916 | the sums of a zero matrix are zero |
| RfcMatrix.RowSumZero | rainflow.c:1899-1916 | the same for one row |
| RfcMatrix.ProcessKeepsLc | rainflow.c:1625-1684 | when every lc entry equals the corrected level-crossing sum of the matrix, counting a cycle keeps it so |
| RfcMatrix.DiagSumBump | rainflow.c:1942-1950 | a bump changes a range's diagonal sum by the increment exactly when the bumped cell has that range |
| RfcMatrix.DiagSumZero | rainflow.c:1942-1950 | the diagonal sums of a zero matrix are zero |
| RfcMatrix.ProcessKeepsRp | rainflow.c:1625-1654 | when every rp entry equals the sum of the matrix cells of that range, counting a cycle keeps it so |
| RfcMatrix.ZerosTrack | rainflow.c:247-249 | the zeroed counters of `RFC_init` and `RFC_reset` agree with the matrix |
| RfcMatrix.AsWrittenMisplacesOneCycle | rainflow.c:1887-1954 | with 2 classes, one full cycle from class 0 to class 1 adds 2 to cell (0, 1), to lc[0] and to rp[1], and the corrected rebuilds agree; the rebuilds as written give lc = [0, 2] and rp[1] = 0 |
| RfcMatrix.LcAsWritten | rainflow.c:1898-1916 | the level-crossing sum as written is 0 for level 0 and, for every other level `i`, the corrected count of level `i - 1` |
| RfcMatrix.RpAsWritten | rainflow.c:1937-1950 | the range-pair sum as written is 0 for range 0 |
| RfcMatrix.RpRowBump | rainflow.c:1939-1950 | a bump changes the as-written sum of row and column `i` exactly when one end of the bumped cell is class `i` and the other is at or above it |
| RfcMatrix.RpAsWrittenBump | rainflow.c:1939-1950 | as written, a cycle is filed under its lower class, not its range: `rp[i]` grows exactly when one end is class `i` and the other at or above it |
| RfcMatrix.LcSlotAsWritten | rainflow.c:1922 | the slot as written is `i` for levels below the buffer size and the buffer size itself, one past the end, for every other level |
| RfcMatrix.LcSlot | rainflow.c:1922 | the corrected slot is inside the buffer and is `i` for every level that fits |
| RfcMatrix.LcFill | rainflow.c:1887-1924 | rebuilding into a buffer keeps its length |
| RfcMatrix.LcFillLevels | rainflow.c:1887-1924 | each of the first `hi` slots holds its level's crossing count and later slots are unchanged; when the buffer is shorter, its last slot holds the top level |
| RfcMatrix.LcFillIsLive | rainflow.c:1887-1924 | the corrected rebuild of a full-size buffer reproduces the lc histogram counted live |
| RfcPipeline.TpAdd | rainflow.c:1706-1751 | a point is appended to the history exactly when there is one and the history is recorded and not locked; earlier entries are kept |
| RfcPipeline.TpLock | rainflow.c:1761-1764 | locking changes only the lock flag |
| RfcPipeline.TpAddAfterLock | rainflow.c:1706-1764 | once locked, adding a point changes nothing |
| RfcPipeline.DropConfirmed | rainflow.c:1405-1409 | without a counting method every confirmed point is removed and the interim point moves to slot 0 |
| RfcPipeline.CycleFind | rainflow.c:1390-1423 | cycle search changes only the counters, the residue and the HCM cursors; without the 4-point method no confirmed point is left; with it no four last points are closable |
| RfcPipeline.CycleFindWf | rainflow.c:1390-1423 | cycle search keeps the session well formed |
| RfcPipeline.Delay | rainflow.c:615-645 | without margins the point passes unchanged; with margins the first sample is held as the left margin, every later sample becomes the right margin, and a point is let through only when it differs from the one held back |
| RfcPipeline.FeedOnce | rainflow.c:586-667 | one sample leaves a well-formed session in BUSY or BUSY_INTERIM at the same stream position |
| RfcPipeline.Stamp | rainflow.c:393-401 | a raw sample gets the next stream position and the class its value quantises to |
| RfcPipeline.FeedSamples | rainflow.c:393-401 | feeding a chunk advances the stream position by its length |
| RfcPipeline.FeedSamplesCons | rainflow.c:393-401 | feeding a chunk is stamping and feeding its first sample, then feeding the rest |
| RfcPipeline.FeedSamplesAppend | rainflow.c:372-404 | feeding `xs + ys` in one call is feeding `xs` and then `ys`, and it is possible exactly when both are in turn |
| RfcPipeline.Feed | rainflow.c:372-404 | `RFC_feed` succeeds exactly in the states from INIT up to, but not including, FINISHED (FINALIZE included), changes nothing when it refuses, and otherwise advances the position by the chunk's length |
| RfcPipeline.FeedTuples | rainflow.c:416-442 | feeding stamped tuples leaves the stream position alone |
| RfcPipeline.FeedTuple | rainflow.c:416-442 | `RFC_feed_tuple` succeeds exactly when `RFC_feed` would and changes nothing when it refuses |
| RfcPipeline.FeedIsStampedTuple | rainflow.c:372-442 | feeding a raw sample is feeding its stamped tuple |
| RfcPipeline.Interim | rainflow.c:696-700 | there is an interim point exactly in BUSY_INTERIM |
| RfcPipeline.Fold | rainflow.c:696-700 | folding appends the interim point, if any, to the confirmed points and changes only the count |
| RfcPipeline.FinalizeHistory | rainflow.c:704-756 | finalising the history only appends to it; without margins it adds the interim point; with margins the delayed point goes first when an interim point exists, a right margin past the first sample always ends the history and replaces the pending point exactly when their values are equal and the pending point is not the first sample, and without a right margin the pending point, if any, is the last point stored; when the history is not recorded nothing changes |
| RfcPipeline.FoldAndCount | rainflow.c:696-762 | folding and counting keep the buffers sized and the counting method |
| RfcPipeline.MoveStack | rainflow.c:770-790 | with HCM and a non-empty stack the stack becomes the residue and the stack is emptied; otherwise nothing changes |
| RfcPipeline.FeedFinalize | rainflow.c:680-794 | finalising succeeds exactly before FINALIZE and changes nothing otherwise; on success the state is FINALIZE, the history is locked, no interim point is left and the increment and position are kept |
| RfcPipeline.FullResidueOverruns | rainflow.c:695-756 | with the interim point in the last residue slot, the final search counts one slot more than the residue holds, so without counting and with HCM finalisation is outside the asserts |
| RfcPipeline.FeedFinalizeFoldsOnce | rainflow.c:696-762 | with the 4-point method and nothing left to close, the interim point is confirmed exactly once |
| RfcPipeline.FeedFinalizeHistory | rainflow.c:704-756 | without margins the interim point is the last point the history receives, and only when it exists and the history is recorded |
| RfcPipeline.Ignore | rainflow.c:895-899 | the ignore strategy is exactly `RFC_feed_finalize` |
| RfcPipeline.Discard | rainflow.c:910-924 | the discard strategy is `RFC_feed_finalize` followed by emptying the residue |
| RfcPipeline.Pairs | rainflow.c:943-963 | the pairs weighted are every adjacent pair of residue points, left to right |
| RfcPipeline.WeightCycles | rainflow.c:933-970 | after finalising, every adjacent pair of the residue is counted at the weight, the increment is restored and the residue is emptied; with fewer than two points only the residue is emptied |
| RfcPipeline.RepeatedAsWritten | rainflow.c:1100-1151 | as written, an empty residue is accepted with nothing else done |
| RfcPipeline.RepeatedAsWrittenSkipsFinalize | rainflow.c:1100-1151 | as written, an empty residue before FINALIZE never reaches FINALIZE and leaves the history unlocked, so `RFC_finalize`'s assert fails |
| RfcPipeline.Replay | rainflow.c:1108-1130 | the points fed again are the confirmed points followed by the interim point, if there is one |
| RfcPipeline.Repeated | rainflow.c:1100-1151 | corrected: before FINALIZE the strategy always succeeds, ends in FINALIZE with the history locked and empties the residue |
| RfcPipeline.Strategy | rainflow.c:476-504 | with the corrected repeated strategy, every known residual method run before FINALIZE succeeds and ends in FINALIZE with the history locked; an unknown one fails with an invalid-argument error |
| RfcPipeline.Finish | rainflow.c:453-511 | with the corrected repeated strategy (see Findings), `RFC_finalize` succeeds exactly for a known residual method and ends in FINISHED, otherwise in ERROR with an invalid-argument error; the emptying strategies leave no residue |
| RfcPipeline.Initialize | rainflow.c:171-291 | `RFC_init` works only from INIT0 and rejects 0 or more than 512 classes and a non-positive width with an invalid argument; otherwise it yields a well-formed INIT session with a 2·count residue and stack, zeroed count² matrix and count-long histograms, an empty unlocked history and the 4-point method |
| RfcPipeline.Reset | rainflow.c:528-573 | `RFC_reset` zeroes every counter, empties residue and history, resets the HCM cursors to IZ 0 and IR 1 and the stream position, keeps the class parameters and returns to INIT0 |
| RfcPipeline.ResetThenInit | rainflow.c:171-291 | a reset session can be initialised again with its old class parameters |
| RfcContext.Rfc.constructor | rainflow.c:171-291 | allocating a context and calling `RFC_init` yields exactly the session of `Initialize` |
| RfcContext.Rfc.Reset | rainflow.c:528-573 | the state after the method is `Reset` of the state before |
| RfcContext.Rfc.ClearCounters | rainflow.c:535-548 | every cell of the matrix, rp and lc is zero |
| RfcContext.Rfc.TpAdd | rainflow.c:1706-1751 | the state after is `TpAdd` of the state before |
| RfcContext.Rfc.TpLock | rainflow.c:1761-1764 | the state after is `TpLock` of the state before |
| RfcContext.Rfc.TpNext | rainflow.c:1221-1381 | the new state and the returned point are those of `TpNext` |
| RfcContext.Rfc.TpNextBusy | rainflow.c:1256-1297 | the same for the startup branch |
| RfcContext.Rfc.TpNextInterim | rainflow.c:1299-1378 | the same for the steady branch |
| RfcContext.Rfc.CycleProcess | rainflow.c:1585-1693 | the state after is `Process` of the state before |
| RfcContext.Rfc.CountCrossings | rainflow.c:1657-1684 | the loop adds the increment to every lc entry in `[first, last)` and to no other |
| RfcContext.Rfc.RemoveItem | rainflow.c:853-884 | the state after is `RemoveItem` of the state before |
| RfcContext.Rfc.ShiftDown | rainflow.c:874-881 | the copy loop moves the tail down over the removed block |
| RfcContext.Rfc.Find4 | rainflow.c:1432-1476 | the state after is `Find4` of the state before |
| RfcContext.Rfc.Step4 | rainflow.c:1434-1474 | one pass of the search closes exactly when the last four points are closable, and then does one `Close4` step |
| RfcContext.Rfc.Close4 | rainflow.c:1459-1472 | the state after is `Close4` of the state before |
| RfcContext.Rfc.HcmFind | rainflow.c:1486-1572 | the state after is `HcmFind` of the state before |
| RfcContext.Rfc.HcmTake | rainflow.c:1491-1567 | one pass of HCM's main loop is `HcmStep` followed by removing `residue[0]` |
| RfcContext.Rfc.HcmPush | rainflow.c:1500-1560 | seeding, closing and pushing K is `HcmStep` |
| RfcContext.Rfc.Label2Loop | rainflow.c:1505-1555 | the loop ends with the cursors of `Label2` and counts exactly the cycles `Label2` closes |
| RfcContext.Rfc.CycleFind | rainflow.c:1390-1423 | the state after is `CycleFind` of the state before |
| RfcContext.Rfc.Delay | rainflow.c:615-645 | the state after and the point let through are those of `Delay` |
| RfcContext.Rfc.FeedOnce | rainflow.c:586-667 | the state after is `FeedOnce` of the state before |
| RfcContext.Rfc.Feed | rainflow.c:372-404 | the state after and the result are those of `Feed` |
| RfcContext.Rfc.FeedNext | rainflow.c:393-401 | one loop pass feeds the next sample of the chunk |
| RfcContext.Rfc.FeedSample | rainflow.c:393-401 | stamping a sample and feeding it is `FeedOnce` of the stamped tuple |
| RfcContext.Rfc.FeedTuple | rainflow.c:416-442 | the state after and the result are those of `FeedTuple` |
| RfcContext.Rfc.FeedFinalize | rainflow.c:680-794 | the state after and the result are those of `FeedFinalize` |
| RfcContext.Rfc.FoldAndCount | rainflow.c:696-762 | the state after is `FoldAndCount` of the state before |
| RfcContext.Rfc.FinalizeHistory | rainflow.c:704-756 | the state after is `FinalizeHistory` of the state before |
| RfcContext.Rfc.MoveStack | rainflow.c:770-790 | the state after is `MoveStack` of the state before |
| RfcContext.Rfc.CopyStack | rainflow.c:770-790 | the first `n` residue slots become the stack's and the rest are unchanged |
| RfcContext.Rfc.Ignore | rainflow.c:895-899 | the state after and the result are those of `Ignore` |
| RfcContext.Rfc.Discard | rainflow.c:910-924 | the state after and the result are those of `Discard` |
| RfcContext.Rfc.WeightCycles | rainflow.c:933-970 | the state after and the result are those of `WeightCycles` |
| RfcContext.Rfc.CountPairs | rainflow.c:943-963 | the loop counts every adjacent pair of the residue, in order |
| RfcContext.Rfc.Repeated | rainflow.c:1100-1151 | the state after and the result are those of the corrected `Repeated` |
| RfcContext.Rfc.Finalize | rainflow.c:453-511 | the state after and the result are those of `Finish`, i.e. with the corrected repeated strategy (see Findings) |
| RfcContext.Rfc.LcFromMatrix | rainflow.c:1887-1924 | the buffer becomes the corrected level-crossing rebuild `LcFill` of the matrix |
| RfcContext.Rfc.LcLevel | rainflow.c:1899-1916 | the nested loops sum the corrected level-crossing count of one level |
| RfcContext.Rfc.RpFromMatrix | rainflow.c:1930-1954 | slot 0 is zero, every slot below the class count holds the sum of the matrix cells of that range, and slots beyond are unchanged |
| RfcTraces.FeedRun | rainflow.c:372-404 | feeding a run of samples that close no cycle is the run step by step |
| RfcTraces.InitGivesTestSetup | rainflow.c:2010-2019 | `RFC_init` with the tests' parameters (10 classes of width 1.0 from 0, hysteresis 1.0, history kept) succeeds, with nothing counted or recorded and both margins cleared |
| RfcTraces.TraceWithinBand | rainflow.c:2111-2116 | feeding 0, 0, 1, 1 and finalising confirms no turning point and leaves the residue empty |
| RfcTraces.TraceThreeTurningPoints | rainflow.c:2123-2132 | feeding the ten-sample series and finalising records 1.0 at position 1, 2.1 at 5 and 1.0 at 8 in the history, and the residue holds the same three points |
| RfcTraces.TraceStartup | rainflow.c:2062-2080 | without margins, a series whose samples all stay within the hysteresis above the first one is accepted, confirms no turning point and leaves the residue empty |
| RfcTraces.StartupRun | rainflow.c:1256-1297 | in startup without margins, samples within the band above the minimum confirm nothing: residue, count, history and minimum stay as they were |
| RfcTraces.TraceEmpty | rainflow.c:2057-2060 | feeding no sample and finalising records no turning point |
| RfcTraces.TraceStartupShort | rainflow.c:2062-2080 | the tests (0), (0, 0), (0, 0.1) and (0, 1.0) without margins record no turning point |
| RfcTraces.TraceEightSamples | rainflow.c:2118-2121 | the eight-sample series without margins records no turning point |
| RfcTraces.MarginFirst | rainflow.c:620-631 | with margins enforced, the first sample becomes minimum, maximum, left margin and delayed point, and nothing is recorded |
| RfcTraces.MarginInside | rainflow.c:637-640 | with margins enforced, a later startup sample between the extrema only becomes the right margin |
| RfcTraces.MarginRiseTurnHeld | rainflow.c:632-635 | with margins enforced, a confirmed point equal in value to the delayed point is dropped by the delay stage while the residue still receives it |
| RfcTraces.MarginStill | rainflow.c:637-640 | with margins enforced, a sample that neither moves nor confirms the interim point only becomes the right margin |
| RfcTraces.MarginTurn | rainflow.c:642-648 | with margins enforced, a newly confirmed point is held back as the delayed point and the point held before is recorded |
| RfcTraces.MarginStartupRun | rainflow.c:620-649 | with margins enforced, a run within the band above the minimum confirms nothing and keeps left margin and delayed point, and the right margin is the last sample |
| RfcTraces.MarginStartupFinish | rainflow.c:704-749 | finalising such a run records the first sample, then the right margin if a second sample came, never letting the margin replace the first sample |
| RfcTraces.MarginFinish | rainflow.c:704-749 | with margins enforced, the right margin 1.0 at 6 replaces the pending interim 1.0 at 5 in the history while the residue keeps position 5 |
| RfcTraces.TraceMarginStartup | rainflow.c:2083-2150 | with margins enforced, a series within the band above its first sample records the first sample and, from two samples on, the last one; the residue stays empty |
| RfcTraces.TraceMarginEmpty | rainflow.c:2083-2086 | with margins enforced and no sample, no turning point is recorded |
| RfcTraces.TraceMarginOne | rainflow.c:2088-2091 | with margins enforced, the single sample 0 is recorded once |
| RfcTraces.TraceMarginTwo | rainflow.c:2093-2106 | with margins enforced, (0, 0), (0, 0.1) and (0, 1.0) each record two points, first sample and right margin |
| RfcTraces.TraceMarginWithinBand | rainflow.c:2137-2144 | with margins enforced, 0, 0, 1, 1 records 0 at position 1 and 1.0 at 4 and leaves the residue empty |
| RfcTraces.TraceMarginEightSamples | rainflow.c:2146-2152 | with margins enforced, the eight-sample series records 1.0 at 1 and 1.0 at 8 and leaves the residue empty |
| RfcTraces.TraceMarginThreeTurningPoints | rainflow.c:2154-2165 | with margins enforced, 1.0, 1.0, 2.1, 2.1, 1.0, 1.0 records 1.0 at 1, 2.1 at 3 and 1.0 at 6 in the history, while the residue holds 1.0 at 1, 2.1 at 3 and 1.0 at 5 |
| RfcTraces.TinyTurn | rainflow.c:1256-1297 | with one class and hysteresis 1, samples 1 then 3 confirm one point and make 3 the rising interim point |
| RfcTraces.AppendGuardLetsThroughOverflow | rainflow.c:1368-1378 | with one class (residue capacity 2) and hysteresis 1, samples 1, 3, 1 reach an append that the guard as written lets through although slot 2 does not exist |

## Left out

- Floating point: samples, class widths, offsets and hysteresis are integers, so a fixed-point scale stands in for `RFC_value_type`. `QUANTIZE` becomes exact floor division of a non-negative difference, and `fabs` and the sign of `value_delta` become integer operations.
- The pseudo damage is a real sum of `damageOf(from, to)·inc/full`. `RFC_damage_calc` (Wöhler curve, `pow`) is not part of this model and is a parameter.
- Integer width: the counters are unbounded naturals. The overflow asserts of `RFC_cycle_process` (each counter `<= RFC_COUNTS_LIMIT` before it is incremented, rainflow.c:1639, 1652, 1671 and 1681) are kept as preconditions against `COUNTS_LIMIT`; wrap-around is not modelled because the asserts exclude it.
- Constant values: `RFC_FULL_CYCLE_INCREMENT`, `RFC_HALF_CYCLE_INCREMENT` and `RFC_COUNTS_LIMIT` (used at rainflow.c:195-197 and in `RFC_cycle_process`) are defined in the library's header, which is not part of this model. The model chooses `FULL_CYCLE_INCREMENT = 2`, `HALF_CYCLE_INCREMENT = 1` and `COUNTS_LIMIT = 0xFFFF_FFFF - 2` in `RfcTypes`; only the overflow preconditions depend on these values.
- RfcContext.Rfc.LcFromMatrix, RfcContext.Rfc.LcLevel, RfcContext.Rfc.RpFromMatrix: the overflow asserts of the rebuilds (rainflow.c:1907, rainflow.c:1914, rainflow.c:1945-1946) are not preconditions. The sums are unbounded naturals, so a matrix whose sums pass `RFC_COUNTS_LIMIT` yields the exact sum where the source would stop at the assert.
- RfcPipeline.FeedFinalize, RfcEngines.RemoveItem: `RFC_feed_finalize` takes the interim point into the count (rainflow.c:696-699) while the state stays BUSY_INTERIM until rainflow.c:791, so the final search treats one more slot as the interim point. When the interim point sat in the last residue slot, `RFC_residue_remove_item` and the 4-point method read `residue[residue_cap]`. The model's `ResidueEnd(s) <= |s.res|` in `RemoveFits`, `Close4Fits`, `HcmFits` and so `FeedFinalizeFits` excludes that case instead of modelling the read; `FullResidueOverruns` shows which sessions it excludes.
- Memory: `RFC_tp_add` grows the history on demand, and allocation failure (`RFC_ERROR_MEMORY`) is not modelled, so `TpAdd` never fails. The history is a sequence. The residue reallocation of `RFC_feed_finalize` for HCM (rainflow.c:770-790) is modelled as a copy into the existing residue, which already has the stack's capacity.
- Residual methods Clormann–Seeger, DIN 45667 and anything unknown all map to `ResUnknown`, which the model treats as the invalid-argument default of the switch. `RFC_finalize_res_clormann_seeger` and the DIN variant are not part of this model.
- RfcPipeline.Strategy, RfcPipeline.Finish, RfcContext.Rfc.Finalize: the `default:` branch of `RFC_finalize`'s switch begins with `assert( false )` (rainflow.c:501), and the `assert( rfc_ctx->state == RFC_STATE_FINALIZE )` after the switch (rainflow.c:506) fails on that path too. These two asserts are not preconditions: `FinalizeFits` admits `ResUnknown`, and the model follows the code after them, the release build's path, which reports `InvalidArgument` and ends in ERROR.
- `RFC_residue_exchange`, `RFC_tp_refeed`, `RFC_deinit`, the damage history (`RFC_dh_spread_damage`), global extrema, the MEX interface and the test harness are not part of this model. The sixteen cases of the source's turning-point test (rainflow.c:2057-2165) are restated as lemmas in `RfcTraces` instead: the five short cases and the three longer series without margins, and the five short cases and the three longer series with margins; the test harness's own `RFC_init`/`RFC_deinit` bookkeeping is not.
- Delegates (function pointers replacing `tp_next`, `cycle_find`, `damage_calc` and the others) are not modelled. Every call goes to the built-in implementation.
- The assert of `RFC_cycle_find_hcm` at rainflow.c:1517 (a stack point that is no turning point only occurs with margins enforced) is not a precondition; the model pops such a point in every case, as the code after the assert does. The assert at rainflow.c:1559 (the push stays inside the stack) is kept, in `HcmStepFits`.
- RfcFilter.TpNext: requires a non-negative hysteresis. `RFC_init` does not check the sign. With a negative one, a startup sample that moves neither extremum reads a slope direction that was never set.
- RfcContext.Rfc.RpFromMatrix: requires a non-empty buffer, because the source writes `buffer[0]` unconditionally.
- RfcPipeline.Ignore: its contract is the delegation itself, because the source's function is a one-line call of `RFC_feed_finalize`; what finalisation guarantees is stated on `FeedFinalize`, `FeedFinalizeFoldsOnce` and `FeedFinalizeHistory`.
- RfcPipeline.Stamp: requires every raw sample to be at or above the class offset. `RFC_feed` quantises without a check, and the conversion of a negative quotient to `unsigned` has no defined result in C; `RFC_cycle_process` asserts the same bound for every counted point (rainflow.c:1590).
- The version check of the context (`rfc_ctx->version != sizeof(rfc_ctx_s)`) and the null-pointer checks of the public functions are not modelled; the class invariant `Valid()` stands for a properly set-up context.

## Findings

| source | as written | input that shows it | evidently intended | confidence | as-written member | corrected member |
|---|---|---|---|---|---|---|
| rainflow.c:1368-1378 | the append is guarded by `residue_cnt < residue_cap` but writes slot `residue_cnt + 1` | 1 class (capacity 2), hysteresis 1, samples 1, 3, 1: the third sample appends with `residue_cnt = 1`, writing slot 2 | guard `residue_cnt + 1 < residue_cap` | not executed | RfcFilter.AppendGuardAsWrittenTooWeak, RfcTraces.AppendGuardLetsThroughOverflow | RfcFilter.AppendFits, RfcFilter.TpNextFits, RfcContext.Rfc.TpNext |
| rainflow.c:1100-1151 | with `residue_cnt == 0` the repeated strategy skips `RFC_feed_finalize`, so the state is not FINALIZE when `RFC_finalize` asserts it (line 506) and the history stays unlocked | any session whose residue is empty before finalisation, e.g. a constant signal | always call `RFC_feed_finalize` | not executed | RfcPipeline.RepeatedAsWritten, RfcPipeline.RepeatedAsWrittenSkipsFinalize | RfcPipeline.Repeated, RfcPipeline.Strategy |
| rainflow.c:1899-1916 | `lc_from_matrix` gives level `i` the cycles with one class at or above `i` and the other below `i`, one level above where `RFC_cycle_process` counts them | 2 classes, one full cycle 0 → 1: counting gives lc = [2, 0], the rebuild gives [0, 2] | sum the cycles with one class at or below `i` and the other above `i` | not executed | RfcMatrix.LcAsWritten, RfcMatrix.AsWrittenMisplacesOneCycle | RfcMatrix.LcFillIsLive, RfcMatrix.ProcessKeepsLc, RfcContext.Rfc.LcFromMatrix |
| rainflow.c:1942-1950 | `rp_from_matrix` sums row/column `i` of the matrix into `rp[i]`, i.e. by endpoint class, not by range | 2 classes, one full cycle 0 → 1: counting gives rp[1] = 2, the rebuild gives rp[1] = 0 | `rp[d]` = the sum of the cells whose classes are `d` apart | not executed | RfcMatrix.RpAsWritten, RfcMatrix.RpAsWrittenBump, RfcMatrix.AsWrittenMisplacesOneCycle | RfcMatrix.ProcessKeepsRp, RfcContext.Rfc.RpFromMatrix |
| rainflow.c:1922 | the slot `i > maxcnt ? maxcnt : i` is `maxcnt` for levels beyond the buffer, one past its end | buffer of 1 slot, 2 classes: level 1 is written to slot 1 | clamp to `maxcnt - 1` | not executed | RfcMatrix.LcSlotAsWritten | RfcMatrix.LcSlot, RfcMatrix.LcFillLevels |
