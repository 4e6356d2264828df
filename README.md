# Nested-loop join executor of Peloton, modelled in Dafny

This project models the core of Peloton's nested-loop join operator
(`src/executor/nested_loop_join_executor.cpp`). The operator is a resumable,
single-threaded state machine over two child operators. Each call of its execute
method loops until it can hand back a non-empty output tile. Otherwise it hands off
to outer-join completion (`BuildOuterJoinOutput`) or returns false.

The file has two variants of the execute method, and both are modelled:

- **`Old_DExecute`, the buffering join.** It buffers the tiles of both children. It
  pairs the left tile at the cursor `left_result_itr_` with the most recent right
  tile. Once the left child is done, it walks the left buffer and wraps to pull the
  next right tile. `DInit` prepares it for its first call.
- **`DExecute`, the correlated join.** This variant is currently active. For every
  row of the current left tile, it pushes that row's key column into the right
  index scan with `ReplaceKeyValue`, drains the scan into the right buffer, and then
  resets the scan or marks the right side done. It then pairs the left tile with the
  last right tile only. It is modelled as the code is written. Wherever that code
  fails, the call ends with a `Fault` outcome instead of a bool. The failure points
  are:
  - an assert that can be false (lines 245, 307 and 339);
  - indexing an empty buffer (lines 271 and 342);
  - dereferencing a null predicate (line 281).

Entities:

- **Tile.** A tile is a sequence of row ids.
- **Position list.** A tile pair's position list is a sequence of (left row, right
  row) pairs.
- **Match trackers.** These are sets of (tile index, row) pairs.
- **Predicate.** An opaque function of the two tile indices and the two rows that
  answers True, False or Unknown. Only False rejects a pair (`IsFalse`, line 187).
  Its left operand is a column reference or something else.

Every operation exists at two levels:

- **State-changing methods.** The classes `BufferedNestedLoopJoin` and
  `CorrelatedNestedLoopJoin` have methods that change the operator's fields and its
  children in place, as the C++ does.
- **Specification functions.** Each method's contract ties its new state (the ghost
  `Model()` of the object graph) to a function of its old state. These functions are
  in modules `BufferedJoinSpec` and `CorrelatedJoinSpec`. The properties are proved
  as lemmas about those functions.

The properties proved:

- **Pairing.** It produces exactly the non-False pairs, ordered by right row and then
  by left row. With no predicate, it produces the full cross product. Match
  recording marks exactly the rows that took part in a pair.
- **Assert invariants.** The invariants behind the asserts at lines 103 and 136 hold,
  for the buffering variant.
- **Termination.** The `for(;;)` loop terminates in both variants.
- **No empty results.** A call that returns true without handing off has set a
  non-empty output tile.
- **Hand-offs.** The hand-off conditions to outer-join completion are proved.
- **Pair schedule.** A complete run of `Old_DExecute` joins every (left tile, right
  tile) pair exactly once, in right-major order. The match trackers then hold exactly
  the rows that have a partner anywhere.
- **`DExecute` behaviour.** A keyed probe pushes every row's key. A left tile with a
  refused key stops the call: it returns false, unless it hands off or fails at an
  earlier row. The right buffer holds exactly what the index scan yielded,
  in order. The only pair joined is (cursor, last right tile). Concrete states reach
  four of the faults.

Notation used in the table:

- **Cursor.** `left_result_itr_`.
- **"Hands off".** A call of `BuildOuterJoinOutput`, whose n-th answer is a
  parameter.

## Model

| member | source | states |
|---|---|---|
| PairwiseMatcher.RowMatches | src/executor/nested_loop_join_executor.cpp:176-200 | defines the pairs the inner loop adds for one right row, in the order it appends them |
| PairwiseMatcher.JoinPairs | src/executor/nested_loop_join_executor.cpp:173-199 | defines the position list of a tile pair: the right rows in the outer loop, the left rows in the inner one |
| PairwiseMatcher.LeftMarks | src/executor/nested_loop_join_executor.cpp:192 | defines what RecordMatchedLeftRow records for a position list: the left row of every pair, with the left tile's index |
| PairwiseMatcher.RightMarks | src/executor/nested_loop_join_executor.cpp:202-206 | defines what RecordMatchedRightRow records for a position list: the right row of every pair, with the right tile's index |
| PairwiseMatcher.RowMatchesMembers | src/executor/nested_loop_join_executor.cpp:176-200 | for one right row r, the inner loop adds (l, r) exactly for the rows l of the left tile on which the predicate is absent or not False |
| PairwiseMatcher.JoinPairsMembers | src/executor/nested_loop_join_executor.cpp:173-199 | (l, r) is in a tile pair's position list iff l is a row of the left tile, r a row of the right tile and the predicate is absent or not False on them |
| PairwiseMatcher.JoinPairsOrdered | src/executor/nested_loop_join_executor.cpp:173-199 | with each tile's rows ascending, the position list is ordered by right row, then by left row, and so has no duplicates |
| PairwiseMatcher.CrossProductWithoutPredicate | src/executor/nested_loop_join_executor.cpp:176-190 | with a null predicate the position list holds every (left row, right row) pair, as many as the product of the two tile sizes |
| PairwiseMatcher.LeftMarksMeaning | src/executor/nested_loop_join_executor.cpp:192 | left row l of the joined left tile is recorded iff it is in that tile and some right row passes the predicate with it |
| PairwiseMatcher.RightMarksMeaning | src/executor/nested_loop_join_executor.cpp:202-206 | right row r of the joined right tile is recorded iff it is in that tile and some left row passes the predicate with it |
| PairwiseMatcher.PairRightRow | src/executor/nested_loop_join_executor.cpp:174-206 | the inner loop appends the right row's pairs, records exactly their left rows, and `has_left_match` holds iff it added a pair |
| PairwiseMatcher.PairTiles | src/executor/nested_loop_join_executor.cpp:172-208 | the nested loops build exactly the tile pair's position list and add to the trackers exactly the rows in it, nothing else |
| PairSchedule.Pos | src/executor/nested_loop_join_executor.cpp:100-167 | defines the tile pair joined at step k with n buffered left tiles: (k mod n, k div n) |
| PairSchedule.Sched | src/executor/nested_loop_join_executor.cpp:100-167 | defines the full right-major schedule of n left and m right tiles |
| PairSchedule.ScheduleJoinsEachPairOnce | src/executor/nested_loop_join_executor.cpp:100-167 | the pair schedule of n left and m right tiles has n * m entries, holds each pair (i < n, j < m) exactly once and is in right-major order |
| PairSchedule.PosOrdered | src/executor/nested_loop_join_executor.cpp:100-157 | each later step of the schedule joins a pair later in right-major order |
| MatchTracker.PairRowsOf | src/executor/nested_loop_join_executor.cpp:172-208 | defines the position list of a joined (left tile, right tile) pair of the buffers |
| MatchTracker.LeftMarksOverMembers | src/executor/nested_loop_join_executor.cpp:192 | the left tracker after a run of joins holds exactly the left rows recorded by one of those joins |
| MatchTracker.RightMarksOverMembers | src/executor/nested_loop_join_executor.cpp:203-206 | the right tracker after a run of joins holds exactly the right rows recorded by one of those joins |
| MatchTracker.CompleteLeftMarks | src/executor/nested_loop_join_executor.cpp:173-206 | after the complete schedule, a left row is recorded iff some row of some right tile passes the predicate with it |
| MatchTracker.CompleteRightMarks | src/executor/nested_loop_join_executor.cpp:173-206 | after the complete schedule, a right row is recorded iff some row of some left tile passes the predicate with it |
| Children.TileQueue.Execute | src/executor/nested_loop_join_executor.cpp:115-125 | a child yields its next tile and drops it, or reports exhaustion and stays as it is |
| Children.ScanReplace | src/executor/nested_loop_join_executor.cpp:289-293 | defines ReplaceKeyValue on the scan's state: install and record the key when the plan accepts it |
| Children.ScanExecute | src/executor/nested_loop_join_executor.cpp:311-313 | defines one Execute() and GetOutput(): look the key up after a reset, then yield the next tile found or report exhaustion |
| Children.ScanReset | src/executor/nested_loop_join_executor.cpp:324 | defines ResetState: forget the lookup |
| Children.ScanExecuteYields | src/executor/nested_loop_join_executor.cpp:311-313 | the index scan yields the tiles found for its key one by one, in order, recording each, then reports exhaustion; the key and keys pushed stay |
| Children.IndexScanChild.ReplaceKeyValue | src/executor/nested_loop_join_executor.cpp:289-293 | the key is installed and recorded when the plan accepts it, and nothing changes otherwise |
| Children.IndexScanChild.Execute | src/executor/nested_loop_join_executor.cpp:311-313 | one Execute() and GetOutput() of the index scan, as ScanExecute on its state |
| Children.IndexScanChild.ResetState | src/executor/nested_loop_join_executor.cpp:324 | the scan forgets its lookup, keeping its key |
| Children.OuterJoinEmitter.BuildOuterJoinOutput | src/executor/nested_loop_join_executor.cpp:87 | one more completion call, whose answer is the n-th of its answers |
| BufferedJoinSpec.HandOff | src/executor/nested_loop_join_executor.cpp:87 | defines `return BuildOuterJoinOutput()`: one more completion call, whose answer is the call's result |
| BufferedJoinSpec.LeftStep | src/executor/nested_loop_join_executor.cpp:98-128 | defines how a pass moves the cursor or pulls the left child, and whether the right child must be pulled |
| BufferedJoinSpec.RightStep | src/executor/nested_loop_join_executor.cpp:130-157 | defines how a pass pulls the right child and when it hands off |
| BufferedJoinSpec.PickStep | src/executor/nested_loop_join_executor.cpp:86-157 | defines tile picking: a hand-off when both children are done, otherwise LeftStep then RightStep |
| BufferedJoinSpec.JoinStep | src/executor/nested_loop_join_executor.cpp:159-214 | defines the join of (cursor, last right tile): the tracker updates, the joined pair and the output tile |
| BufferedJoinSpec.LoopStep | src/executor/nested_loop_join_executor.cpp:84-215 | defines one pass of the loop: PickStep, then JoinStep unless it handed off |
| BufferedJoinSpec.Run | src/executor/nested_loop_join_executor.cpp:79-219 | defines a call of Old_DExecute: passes until one hands off or sets a non-empty output tile |
| BufferedJoinSpec.LeftStepAdvances | src/executor/nested_loop_join_executor.cpp:100-127 | a new left tile puts the cursor on it; a done left side moves the cursor one on or wraps it to 0 and asks for the right child; exhaustion sets it to 0 and asks too; the left work or cursor work shrinks |
| BufferedJoinSpec.RightStepReady | src/executor/nested_loop_join_executor.cpp:130-157 | the right child is pulled only when asked for or the right buffer is empty; it hands off when right is done with nothing buffered, on right exhaustion (setting the flag) and when left is done with nothing buffered; otherwise both tiles exist |
| BufferedJoinSpec.PickStepReady | src/executor/nested_loop_join_executor.cpp:86-157 | picking tiles either hands off once, with that call's answer, or leaves a valid (cursor, last right tile) pair and brings the call closer to its end |
| BufferedJoinSpec.PickStepHandsOff | src/executor/nested_loop_join_executor.cpp:86-154 | setting the right done-flag hands off; with both flags set a call only hands off |
| BufferedJoinSpec.JoinStepRecords | src/executor/nested_loop_join_executor.cpp:159-215 | the pass joins (cursor, last right tile), sets that pair's position list as output exactly when it is non-empty, keeps the trackers in step and changes nothing else |
| BufferedJoinSpec.LoopStepProgress | src/executor/nested_loop_join_executor.cpp:84-218 | a pass keeps the schedule invariant behind the asserts at lines 103 and 136, and one that does not return shrinks the measure: the loop terminates |
| BufferedJoinSpec.LoopStepTracks | src/executor/nested_loop_join_executor.cpp:84-218 | a pass keeps the whole invariant (children, buffers, schedule, trackers) and only appends to the buffers |
| BufferedJoinSpec.LoopStepJoins | src/executor/nested_loop_join_executor.cpp:159-215 | a pass that does not hand off joins exactly (cursor, last right tile) and returns true iff its position list is non-empty |
| BufferedJoinSpec.LoopStepHandOff | src/executor/nested_loop_join_executor.cpp:86-154 | a hand-off returns that completion's answer and leaves the output alone |
| BufferedJoinSpec.LoopStepEmits | src/executor/nested_loop_join_executor.cpp:211-215 | a pass that returns true without handing off has set a non-empty output tile for the pair it joined |
| BufferedJoinSpec.LoopStepHandsOff | src/executor/nested_loop_join_executor.cpp:86-154 | the right done-flag is only set by a hand-off and stays set; with both flags set a pass is exactly one hand-off |
| BufferedJoinSpec.LoopStepGrows | src/executor/nested_loop_join_executor.cpp:125-151 | buffers and joined pairs only grow, and the children's input is consumed, not changed |
| BufferedJoinSpec.RunGrows | src/executor/nested_loop_join_executor.cpp:79-219 | a call keeps the schedule invariant and only appends to the buffers and the joined pairs |
| BufferedJoinSpec.RunKeeps | src/executor/nested_loop_join_executor.cpp:79-219 | a call keeps the whole invariant |
| BufferedJoinSpec.RunResult | src/executor/nested_loop_join_executor.cpp:79-219 | a call either hands off exactly once, with its answer and the output unchanged, or returns true with a non-empty output tile for its last joined pair |
| BufferedJoinSpec.RunSilentBeforeHandOff | src/executor/nested_loop_join_executor.cpp:211-217 | every pair joined in a call that hands off produced an empty position list |
| BufferedJoinSpec.RunSilentBeforeOutput | src/executor/nested_loop_join_executor.cpp:211-217 | in a call that returns a tile, every pair joined before the last one produced an empty position list |
| BufferedJoinSpec.RunHandsOff | src/executor/nested_loop_join_executor.cpp:86-154 | a call with a side done and nothing buffered hands off; setting the right flag hands off; with both flags set a call is one hand-off |
| BufferedJoinSpec.CompletedRun | src/executor/nested_loop_join_executor.cpp:100-206 | once both flags are set, both children are drained, the joined pairs are exactly the pair schedule, and each tracker holds exactly the rows that pass with some row of the other side |
| BufferedJoin.BufferedNestedLoopJoin.constructor | src/executor/nested_loop_join_executor.cpp:34-36 | the operator starts with both flags clear, both buffers and trackers empty, and the invariant holding |
| BufferedJoin.BufferedNestedLoopJoin.DInit | src/executor/nested_loop_join_executor.cpp:43-56 | when the base initialisation succeeds, both buffers are empty, the right flag and right cursor are cleared and true is returned; otherwise nothing changes and false is returned |
| BufferedJoin.BufferedNestedLoopJoin.AdvanceLeft | src/executor/nested_loop_join_executor.cpp:98-128 | changes the fields and the left child as LeftStep; the assert at line 103 holds |
| BufferedJoin.BufferedNestedLoopJoin.AdvanceRight | src/executor/nested_loop_join_executor.cpp:130-157 | changes the fields, the right child and completion as RightStep; the assert at line 136 holds |
| BufferedJoin.BufferedNestedLoopJoin.PickTiles | src/executor/nested_loop_join_executor.cpp:86-157 | changes state as PickStep |
| BufferedJoin.BufferedNestedLoopJoin.BuildJoinTile | src/executor/nested_loop_join_executor.cpp:159-214 | changes the trackers, the joined pairs and the output as JoinStep |
| BufferedJoin.BufferedNestedLoopJoin.Step | src/executor/nested_loop_join_executor.cpp:84-215 | one pass of the loop changes state as LoopStep |
| BufferedJoin.BufferedNestedLoopJoin.OldDExecute | src/executor/nested_loop_join_executor.cpp:79-219 | the call keeps the invariant, terminates, and ends in the state and with the result of Run |
| CorrelatedJoinSpec.HandOff | src/executor/nested_loop_join_executor.cpp:229 | defines `return BuildOuterJoinOutput()`: one more completion call, whose answer is the call's result |
| CorrelatedJoinSpec.KeyRefused | src/executor/nested_loop_join_executor.cpp:289-296 | defines ReplaceKeyValue returning false for the key of a left row |
| CorrelatedJoinSpec.PickLeft | src/executor/nested_loop_join_executor.cpp:241-269 | defines left-tile picking, with the assert at line 245 as a fault |
| CorrelatedJoinSpec.DrainProbe | src/executor/nested_loop_join_executor.cpp:310-330 | defines the drain loop: buffer each tile the scan yields, then reset the scan or set the right flag |
| CorrelatedJoinSpec.ProbeRows | src/executor/nested_loop_join_executor.cpp:273-331 | defines the row loop: push each row's key, return false when it is refused, hand off or fail at line 307, and drain |
| CorrelatedJoinSpec.CheckRight | src/executor/nested_loop_join_executor.cpp:333-342 | defines the right-buffer checks: hand-off, the assert at line 339 and back() on an empty buffer as faults |
| CorrelatedJoinSpec.JoinBack | src/executor/nested_loop_join_executor.cpp:349-397 | defines the join of (cursor, last right tile): the tracker updates, the joined pair and the output tile |
| CorrelatedJoinSpec.CheckAndJoin | src/executor/nested_loop_join_executor.cpp:333-399 | defines CheckRight followed by JoinBack |
| CorrelatedJoinSpec.ProbeAndJoin | src/executor/nested_loop_join_executor.cpp:271-399 | defines the rest of a pass once the left tile is picked, with the line 271 index check as a fault |
| CorrelatedJoinSpec.ProbeLoopStep | src/executor/nested_loop_join_executor.cpp:226-400 | defines one pass of the loop: a hand-off when both sides are done, otherwise PickLeft then ProbeAndJoin |
| CorrelatedJoinSpec.ProbeRun | src/executor/nested_loop_join_executor.cpp:221-401 | defines a call of DExecute: passes until one returns or fails |
| CorrelatedJoinSpec.DrainBuffersAll | src/executor/nested_loop_join_executor.cpp:310-330 | with a left tile buffered, draining never hands off and appends to the right buffer exactly the tiles the scan still had to yield, in order |
| CorrelatedJoinSpec.DrainEnds | src/executor/nested_loop_join_executor.cpp:318-327 | once drained, the scan is reset if the left child is live (right flag unchanged), and otherwise the right flag is set |
| CorrelatedJoinSpec.ProbeRowsBuffers | src/executor/nested_loop_join_executor.cpp:273-331 | the right buffer grows only when the cursor is 0 and the tile has a row; a probe that goes on through a row with left done sets the right flag, and one that goes on makes no hand-off |
| CorrelatedJoinSpec.ProbeRowsPushes | src/executor/nested_loop_join_executor.cpp:273-294 | a probe that goes on has pushed the key column value of every row of the left tile, in row order |
| CorrelatedJoinSpec.ProbeRowsRefused | src/executor/nested_loop_join_executor.cpp:289-296 | a probe that returns without a hand-off returns false, and some row's key was refused (the converse of ProbeRowsStopAtRefused) |
| CorrelatedJoinSpec.ProbeRowsRefusedAt | src/executor/nested_loop_join_executor.cpp:289-296 | such a probe stopped at the first refused row, having pushed exactly the keys of the rows before it |
| CorrelatedJoinSpec.ProbeRowsStopAtRefused | src/executor/nested_loop_join_executor.cpp:289-296 | a left tile with a row whose key is refused never lets the probe go on: it returns false, unless it hands off or fails at an earlier row |
| CorrelatedJoinSpec.PickLeftKeeps | src/executor/nested_loop_join_executor.cpp:241-269 | picking the left tile keeps the invariant, fails only at line 245 (left done, right buffer empty) and then changes nothing, and either shrinks the left work or moves the cursor one on or wraps it to a left tile with rows |
| CorrelatedJoinSpec.ProbeAndJoinKeeps | src/executor/nested_loop_join_executor.cpp:271-399 | probing and joining keeps the invariant (right buffer equals what the scan yielded, and grows only from the first left tile) and changes nothing on the left |
| CorrelatedJoinSpec.ProbeLoopStepProgress | src/executor/nested_loop_join_executor.cpp:226-400 | every pass keeps the invariant, and a pass that goes on brings the call strictly closer to its end: the loop terminates |
| CorrelatedJoinSpec.ProbeLoopStepTracks | src/executor/nested_loop_join_executor.cpp:349-397 | every pass keeps the trackers equal to what the joined pairs recorded |
| CorrelatedJoinSpec.ProbeLoopStepJoinsBack | src/executor/nested_loop_join_executor.cpp:342-397 | a pass joins either nothing or exactly (cursor, last right tile); it returns true iff that position list is non-empty, setting it as output, and returns true otherwise only by a hand-off |
| CorrelatedJoinSpec.ProbeLoopStepEmits | src/executor/nested_loop_join_executor.cpp:393-396 | a pass returning true without a hand-off has set a non-empty output for (cursor, last right tile) |
| CorrelatedJoinSpec.ProbeRunKeeps | src/executor/nested_loop_join_executor.cpp:221-401 | a call ends by returning or failing, and keeps the invariant and the trackers |
| CorrelatedJoinSpec.ProbeRunEmits | src/executor/nested_loop_join_executor.cpp:221-401 | a call returning true without a hand-off has set the non-empty output of (cursor, last right tile), its last joined pair |
| CorrelatedJoinSpec.ProbeLoopStepRefused | src/executor/nested_loop_join_executor.cpp:279-296 | a pass whose picked left tile has a refused key does not go on: it returns false, unless it hands off or fails at an earlier row |
| CorrelatedJoinSpec.ProbeRunRefused | src/executor/nested_loop_join_executor.cpp:221-401 | a call whose next left tile has a refused key returns false, unless it hands off or fails at an earlier row |
| CorrelatedJoinSpec.EmptyLeftFaults | src/executor/nested_loop_join_executor.cpp:256-271 | when the left child yields nothing, the first call indexes an empty left buffer |
| CorrelatedJoinSpec.NullPredicateFaults | src/executor/nested_loop_join_executor.cpp:273-281 | with a null predicate, the first left tile with a row dereferences it |
| CorrelatedJoinSpec.SecondLeftTileFaults | src/executor/nested_loop_join_executor.cpp:262-307 | once a second left tile with a row is buffered, the assert at line 307 fails unless its first key is refused |
| CorrelatedJoinSpec.ProbeRowsFindNothing | src/executor/nested_loop_join_executor.cpp:289-330 | when every key is accepted and finds nothing, probing the first left tile goes on with the right buffer empty |
| CorrelatedJoinSpec.NoRightTileFaults | src/executor/nested_loop_join_executor.cpp:273-342 | when the keys of the first left tile find nothing, the first call takes the last tile of an empty right buffer |
| CorrelatedJoin.CorrelatedNestedLoopJoin.constructor | src/executor/nested_loop_join_executor.cpp:34-56 | the operator starts as DInit leaves it: flags clear, buffers and trackers empty, invariant holding |
| CorrelatedJoin.CorrelatedNestedLoopJoin.PickLeftTile | src/executor/nested_loop_join_executor.cpp:241-269 | changes the fields and the left child as PickLeft |
| CorrelatedJoin.CorrelatedNestedLoopJoin.DrainStep | src/executor/nested_loop_join_executor.cpp:311-328 | one pass of the drain loop: goes on with less left to yield, or ends as DrainProbe |
| CorrelatedJoin.CorrelatedNestedLoopJoin.DrainRight | src/executor/nested_loop_join_executor.cpp:310-330 | the drain loop changes state as DrainProbe |
| CorrelatedJoin.CorrelatedNestedLoopJoin.ProbeWithLeftTile | src/executor/nested_loop_join_executor.cpp:273-331 | the row loop changes state as ProbeRows over the rows of the left tile at the cursor |
| CorrelatedJoin.CorrelatedNestedLoopJoin.CheckRightTile | src/executor/nested_loop_join_executor.cpp:333-342 | changes state as CheckRight |
| CorrelatedJoin.CorrelatedNestedLoopJoin.BuildJoinTile | src/executor/nested_loop_join_executor.cpp:349-397 | changes the trackers, the joined pairs and the output as JoinBack |
| CorrelatedJoin.CorrelatedNestedLoopJoin.CheckAndJoinTile | src/executor/nested_loop_join_executor.cpp:333-399 | changes state as CheckAndJoin |
| CorrelatedJoin.CorrelatedNestedLoopJoin.ProbeAndJoinTile | src/executor/nested_loop_join_executor.cpp:271-399 | changes state as ProbeAndJoin, failing at line 271 when the cursor is past the left buffer |
| CorrelatedJoin.CorrelatedNestedLoopJoin.Step | src/executor/nested_loop_join_executor.cpp:226-400 | one pass of the loop changes state as ProbeLoopStep |
| CorrelatedJoin.CorrelatedNestedLoopJoin.DExecute | src/executor/nested_loop_join_executor.cpp:221-401 | the call keeps the invariant, terminates, and ends in the state and with the outcome of ProbeRun |

## Left out

- Logging, the `std::cout` at line 289, and the executor-context plumbing for IN
  subqueries described at lines 63-77 are not modelled: they have no effect on the
  join state.
- The commented-out third variant at lines 403-471 is not modelled, because it is not
  compiled.
- `LogicalTile`, `PositionListsBuilder`, `BuildOutputLogicalTile` and
  `SetPositionListsAndVisibility` are reduced to the list of (left row, right row)
  pairs. The output tile is that list, together with the indices of the two tiles.
- Expression evaluation and `common::Value` are opaque. The predicate is a function
  into {True, False, Unknown}. The key of a left row is a parameter, `columnValue`.
- `ReplaceKeyValue` and `ResetState` keep only the behaviour the join relies on: a key
  is accepted or not, and a reset makes the next Execute look the key up again.
- `BufferLeftTile`, `BufferRightTile`, `RecordMatchedLeftRow`, `RecordMatchedRightRow`
  and `BuildOuterJoinOutput` belong to the abstract join executor, which is not part
  of this model. Buffering is an append, and recording is a set insertion. Outer-join
  completion is an opaque call whose n-th answer is a parameter. Its own effect on the
  output is not modelled.
- For `DExecute`, the right child is always an index scan. The model does not cover
  line 287's else-branch, which skips the key push for other plan types, because
  line 324 casts the right child to an index scan unchecked.
- The unchecked cast of the predicate's left operand to a column reference (line 281)
  is a precondition, `EnvOk`, and not a fault.
- The `PL_ASSERT`s are checked asserts in the buffering variant, proved to hold. In
  `DExecute` they are `Fault` outcomes, as in a debug build. Two faults are modelled
  but no lemma exhibits a state that reaches them: `RightBufferEmpty` (line 245) and
  `CursorNotZeroAdvance` (line 339) both need a state left behind by an earlier call
  that returned false. The hand-off at line 316 is modelled, and
  `CorrelatedJoinSpec.DrainBuffersAll` shows it cannot happen while a left tile is
  buffered, as it always is there.
- `BufferedJoin.BufferedNestedLoopJoin.DInit` also requires the left done-flag to be
  clear. That flag belongs to `AbstractJoinExecutor::DInit`, which is not part of this
  model.
- `CorrelatedJoin.CorrelatedNestedLoopJoin.constructor` yields the state `DInit`
  leaves, instead of a separate `DInit` method for that class. `DInit` is shared C++
  code, so it is modelled once, on the buffering class.
- `right_result_itr_` is kept as a field, but neither variant reads it after `DInit`.
- Integer widths (`oid_t`, `size_t`) are not modelled. Indices and counts are
  unbounded naturals, and the buffers never get near the width limits.
