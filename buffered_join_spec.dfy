/** The buffering variant of the nested-loop join (NestedLoopJoinExecutor::Old_DExecute,
    nested_loop_join_executor.cpp lines 79-219) as functions on its state.

    Each phase of the control loop is a function from the state before it to the state
    after it: LeftStep (lines 98-128), RightStep (lines 130-157), PickStep (lines 86-157),
    JoinStep (lines 159-214), LoopStep (one pass of the loop) and Run (the whole call).
    The class in buffered_join.dfy is proved to compute exactly these; the invariants they
    keep and what a call achieves are proved here.
 */
module BufferedJoinSpec {
  import opened JoinModel
  import opened PairwiseMatcher
  import opened PairSchedule
  import opened MatchTracker

  /** Everything a call reads or changes: the tiles each child has still to yield, the
      number of outer-join completions so far, and the executor's own fields.  `joined`
      lists the tile pairs joined so far, in order. */
  datatype JoinState = JoinState(
    leftRemaining: seq<Tile>,
    rightRemaining: seq<Tile>,
    calls: nat,
    leftDone: bool,
    rightDone: bool,
    leftItr: nat,
    rightItr: nat,
    leftTiles: seq<Tile>,
    rightTiles: seq<Tile>,
    leftMatched: set<MatchedRow>,
    rightMatched: set<MatchedRow>,
    output: Option<OutputTile>,
    joined: seq<TilePair>)

  //===------------------------------------------------------------------===//
  // Invariants
  //===------------------------------------------------------------------===//

  /** A child that reported exhaustion has nothing left. */
  predicate ChildrenConsistent(s: JoinState)
  {
    && (s.leftDone ==> s.leftRemaining == [])
    && (s.rightDone ==> s.rightRemaining == [])
  }

  /** The buffers, flags and cursor between two passes of the control loop. */
  predicate BuffersConsistent(s: JoinState)
  {
    && ChildrenConsistent(s)
    // no right tile yet and the right child live: nothing has happened yet
    && (s.rightTiles == [] && !s.rightDone ==> s.leftTiles == [] && !s.leftDone)
    && (s.rightTiles != [] && !s.leftDone ==> s.leftTiles != [])
    // what the assert at line 103 relies on
    && (s.leftDone && !s.rightDone ==> s.rightTiles != [])
    && (s.rightDone && s.rightTiles != [] ==> s.leftDone)
    // the right child is pulled a second time only once the left child is exhausted
    && (!s.leftDone ==> |s.rightTiles| <= 1)
    // the cursor
    && (s.leftTiles == [] ==> s.leftItr == 0)
    && (s.leftTiles != [] ==> s.leftItr < |s.leftTiles|)
    && (!s.leftDone && s.leftTiles != [] ==> s.leftItr == |s.leftTiles| - 1)
  }

  /** The tile pairs joined so far are the first steps of the schedule and end at the
      cursor against the last right tile (at the last pair once both children are done). */
  predicate ScheduleConsistent(s: JoinState)
  {
    if s.leftTiles == [] || s.rightTiles == [] then s.joined == []
    else
      && s.joined != []
      && FollowsSchedule(|s.leftTiles|, s.joined)
      && s.joined[|s.joined| - 1].1 == |s.rightTiles| - 1
      && s.joined[|s.joined| - 1].0 == (if s.leftDone && s.rightDone then |s.leftTiles| - 1 else s.leftItr)
  }

  predicate Scheduled(s: JoinState)
  {
    BuffersConsistent(s) && ScheduleConsistent(s)
  }

  /** The match trackers hold what the joined pairs recorded. */
  predicate TrackersConsistent(pred: Option<JoinPredicate>, s: JoinState)
  {
    Tracks(pred, s.leftTiles, s.rightTiles, s.joined, s.leftMatched, s.rightMatched)
  }

  /** The invariant of the executor between two calls. */
  predicate Consistent(pred: Option<JoinPredicate>, s: JoinState)
  {
    Scheduled(s) && TrackersConsistent(pred, s)
  }

  /** The state after the tiles are picked and before they are joined: the pair at the
      cursor and the last right tile is the next one the schedule joins. */
  predicate Ready(s: JoinState)
  {
    && BuffersConsistent(s)
    && s.rightTiles != [] && s.leftItr < |s.leftTiles| && !s.rightDone
    && FollowsSchedule(|s.leftTiles|, s.joined)
    && Pos(|s.leftTiles|, |s.joined|) == (s.leftItr, |s.rightTiles| - 1)
  }

  /** The state between the two halves of tile picking (after line 128); `advance` says
      whether the right child must be pulled next. */
  predicate LeftAdvanced(s: JoinState, advance: bool)
  {
    && ChildrenConsistent(s)
    && (advance ==> s.leftDone && s.leftItr == 0)
    && (s.leftDone && !advance ==> s.rightTiles != [])
    && (s.leftDone && s.leftTiles == [] ==> advance)
    && (s.rightDone ==> s.rightTiles == [])
    && (s.rightTiles == [] && !s.rightDone && !s.leftDone ==> |s.leftTiles| == 1)
    && (!s.leftDone ==> s.leftTiles != [] && |s.rightTiles| <= 1 && s.leftItr == |s.leftTiles| - 1)
    && (s.leftTiles == [] ==> s.leftItr == 0)
    && (s.leftTiles != [] ==> s.leftItr < |s.leftTiles|)
    // the schedule
    && (s.leftTiles == [] || s.rightTiles == [] ==> s.joined == [])
    && (s.leftTiles != [] ==> FollowsSchedule(|s.leftTiles|, s.joined))
    && (s.leftTiles != [] && s.rightTiles != [] && advance ==>
          s.joined != [] && s.joined[|s.joined| - 1] == (|s.leftTiles| - 1, |s.rightTiles| - 1))
    && (s.leftTiles != [] && (advance || s.rightTiles == []) ==> Pos(|s.leftTiles|, |s.joined|) == (0, |s.rightTiles|))
    && (s.leftTiles != [] && s.rightTiles != [] && !advance ==>
          Pos(|s.leftTiles|, |s.joined|) == (s.leftItr, |s.rightTiles| - 1))
  }

  /** The states in which a call hands off to outer-join completion. */
  predicate HandOffState(s: JoinState)
  {
    (s.leftDone && s.rightDone) || (s.rightDone && s.rightTiles == []) || (s.leftDone && s.leftTiles == [])
  }

  function LeftWork(s: JoinState): nat
  {
    |s.leftRemaining| + (if s.leftDone then 0 else 1)
  }

  function RightWork(s: JoinState): nat
  {
    |s.rightRemaining| + (if s.rightDone then 0 else 1)
  }

  function CursorWork(s: JoinState): nat
  {
    if s.leftItr <= |s.leftTiles| then |s.leftTiles| - s.leftItr else 0
  }

  /** `t` is strictly closer to the end of the input than `s`. */
  predicate Progress(t: JoinState, s: JoinState)
  {
    || LeftWork(t) < LeftWork(s)
    || (LeftWork(t) == LeftWork(s) && RightWork(t) < RightWork(s))
    || (LeftWork(t) == LeftWork(s) && RightWork(t) == RightWork(s) && CursorWork(t) < CursorWork(s))
  }

  /** The children still hold what the buffers do not. */
  predicate SameInput(t: JoinState, s: JoinState)
  {
    && t.leftTiles + t.leftRemaining == s.leftTiles + s.leftRemaining
    && t.rightTiles + t.rightRemaining == s.rightTiles + s.rightRemaining
  }

  //===------------------------------------------------------------------===//
  // The control loop, phase by phase
  //===------------------------------------------------------------------===//

  /** BuildOuterJoinOutput: one more call to outer-join completion, whose answer is the
      call's result.  Returns (state, handed off, result). */
  function HandOff(answers: nat -> bool, s: JoinState): (JoinState, bool, bool)
  {
    (s.(calls := s.calls + 1), true, answers(s.calls))
  }

  /** Lines 98-128: once the left child is done, move the cursor to the next buffered
      left tile, wrapping to 0 after the last one; otherwise pull the left child and buffer
      its tile, or mark it done.  Returns (state, whether the right child must be pulled). */
  function LeftStep(s: JoinState): (JoinState, bool)
  {
    if s.leftDone then
      if s.leftItr + 1 >= |s.leftTiles| then (s.(leftItr := 0), true)
      else (s.(leftItr := s.leftItr + 1), false)
    else if s.leftRemaining == [] then (s.(leftDone := true, leftItr := 0), true)
    else
      (s.(leftRemaining := s.leftRemaining[1..], leftTiles := s.leftTiles + [s.leftRemaining[0]],
          leftItr := |s.leftTiles|), false)
  }

  /** Lines 130-157: pull the right child when the cursor wrapped or no right tile is
      buffered yet, handing off when either side has nothing to join. */
  function RightStep(answers: nat -> bool, s: JoinState, advance: bool): (JoinState, bool, bool)
  {
    if !advance && s.rightTiles != [] then (s, false, false)
    else if s.rightDone && s.rightTiles == [] then HandOff(answers, s)
    else if s.rightRemaining == [] then HandOff(answers, s.(rightDone := true))
    else
      var t := s.(rightRemaining := s.rightRemaining[1..], rightTiles := s.rightTiles + [s.rightRemaining[0]]);
      if t.leftDone && t.leftTiles == [] then HandOff(answers, t) else (t, false, false)
  }

  /** Lines 86-157: hand off when both children are done, otherwise pick the next left
      tile and right tile. */
  function PickStep(answers: nat -> bool, s: JoinState): (JoinState, bool, bool)
  {
    if s.leftDone && s.rightDone then HandOff(answers, s)
    else
      var (t, advance) := LeftStep(s);
      RightStep(answers, t, advance)
  }

  /** Lines 159-214: join the left tile at the cursor with the last right tile, record the
      matches and set the output tile when the position list is not empty.  Returns
      (state, whether the output tile was set). */
  function JoinStep(pred: Option<JoinPredicate>, s: JoinState): (JoinState, bool)
    requires s.leftItr < |s.leftTiles| && s.rightTiles != []
  {
    var jp := (s.leftItr, |s.rightTiles| - 1);
    var pairs := PairRowsOf(pred, s.leftTiles, s.rightTiles, jp);
    var t := s.(leftMatched := s.leftMatched + LeftMarks(jp.0, pairs),
                rightMatched := s.rightMatched + RightMarks(jp.1, pairs),
                joined := s.joined + [jp]);
    if pairs != [] then (t.(output := Some(OutputTile(jp.0, jp.1, pairs))), true) else (t, false)
  }

  /** One pass of the control loop (lines 84-215).  Returns (state, handed off, result). */
  function LoopStep(pred: Option<JoinPredicate>, answers: nat -> bool, s: JoinState): (JoinState, bool, bool)
    requires Scheduled(s)
  {
    var (t, handedOff, result) := PickStep(answers, s);
    if handedOff then (t, true, result)
    else
      PickStepReady(answers, s);
      var (u, nonEmpty) := JoinStep(pred, t);
      (u, false, nonEmpty)
  }

  /** Old_DExecute (lines 79-219): loop until a pass sets a non-empty output tile or hands
      off to outer-join completion.  Returns (state, result). */
  function Run(pred: Option<JoinPredicate>, answers: nat -> bool, s: JoinState): (JoinState, bool)
    requires Scheduled(s)
    decreases LeftWork(s), RightWork(s), CursorWork(s)
  {
    var (t, handedOff, result) := LoopStep(pred, answers, s);
    if handedOff || result then (t, result)
    else
      LoopStepProgress(pred, answers, s);
      Run(pred, answers, t)
  }

  //===------------------------------------------------------------------===//
  // What each phase keeps
  //===------------------------------------------------------------------===//

  /** Lines 98-128 keep the buffers consistent with the schedule and make progress. */
  lemma LeftStepAdvances(s: JoinState)
    requires Scheduled(s) && !(s.leftDone && s.rightDone)
    ensures LeftAdvanced(LeftStep(s).0, LeftStep(s).1)
    ensures s.leftTiles <= LeftStep(s).0.leftTiles
    ensures s.leftDone ==> LeftStep(s).0.leftDone
    ensures LeftWork(LeftStep(s).0) < LeftWork(s)
            || (LeftWork(LeftStep(s).0) == LeftWork(s) && (LeftStep(s).1 || CursorWork(LeftStep(s).0) < CursorWork(s)))
  {
    var n := |s.leftTiles|;
    if s.leftDone {
      if n > 0 {
        PosStep(n, |s.joined| - 1);
      }
    } else if s.leftRemaining == [] {
      if s.rightTiles != [] {
        PosStep(n, |s.joined| - 1);
      }
    } else if s.rightTiles != [] {
      PosInverse(n, |s.joined| - 1);
      FollowsWiden(n, n + 1, s.joined);
      PosOfPair(n + 1, n, 0);
    }
  }

  /** Lines 130-157: either the call hands off in a consistent state, or the tiles to join
      next are the next pair of the schedule. */
  lemma RightStepReady(answers: nat -> bool, s: JoinState, advance: bool)
    requires LeftAdvanced(s, advance)
    ensures var (t, handedOff, result) := RightStep(answers, s, advance);
      && (handedOff ==> Scheduled(t) && HandOffState(t) && t.calls == s.calls + 1 && result == answers(s.calls))
      && (!handedOff ==> Ready(t) && t.calls == s.calls)
      && s.rightTiles <= t.rightTiles
      && (s.rightDone ==> t.rightDone)
      && (!s.rightDone && t.rightDone ==> handedOff)
      && (s.rightDone && s.rightTiles == [] ==> handedOff)
      && (s.leftDone && s.leftTiles == [] ==> handedOff)
      && (!handedOff && (advance || s.rightTiles == []) ==> RightWork(t) < RightWork(s))
      && (!(advance || s.rightTiles == []) ==> !handedOff && t == s)
  {
  }

  /** Lines 86-157: either the call hands off in a consistent state with the answer of
      outer-join completion, or the tiles to join next are the next pair of the schedule
      and the children or the cursor moved on. */
  lemma PickStepReady(answers: nat -> bool, s: JoinState)
    requires Scheduled(s)
    ensures PickStep(answers, s).1 ==>
      && Scheduled(PickStep(answers, s).0) && HandOffState(PickStep(answers, s).0)
      && PickStep(answers, s).0.calls == s.calls + 1 && PickStep(answers, s).2 == answers(s.calls)
    ensures !PickStep(answers, s).1 ==>
      Ready(PickStep(answers, s).0) && PickStep(answers, s).0.calls == s.calls && Progress(PickStep(answers, s).0, s)
  {
    if !(s.leftDone && s.rightDone) {
      LeftStepAdvances(s);
      RightStepReady(answers, LeftStep(s).0, LeftStep(s).1);
    }
  }

  /** Lines 86-157 only buffer what the children yield and move the cursor: the joined
      pairs, the trackers and the output tile stay as they were. */
  lemma PickStepInput(answers: nat -> bool, s: JoinState)
    ensures var t := PickStep(answers, s).0;
      && s.leftTiles <= t.leftTiles && s.rightTiles <= t.rightTiles && SameInput(t, s)
      && t.joined == s.joined && t.leftMatched == s.leftMatched && t.rightMatched == s.rightMatched
      && t.output == s.output
      && (s.rightDone ==> t.rightDone)
  {
    if !(s.leftDone && s.rightDone) {
      var l := LeftStep(s).0;
      LeftStepInput(s);
      RightStepInput(answers, l, LeftStep(s).1);
    }
  }

  /** Lines 86-157 leave the joined pairs, the trackers, the output tile and the count
      of outer-join completions alone, except for the one hand-off. */
  lemma PickStepKeeps(answers: nat -> bool, s: JoinState)
    ensures var (t, handedOff, _) := PickStep(answers, s);
      && t.joined == s.joined && t.leftMatched == s.leftMatched && t.rightMatched == s.rightMatched
      && t.output == s.output && t.calls == s.calls + (if handedOff then 1 else 0)
  {
  }

  lemma LeftStepInput(s: JoinState)
    ensures var t := LeftStep(s).0;
      && s.leftTiles <= t.leftTiles && SameInput(t, s)
      && t.(leftRemaining := s.leftRemaining, leftTiles := s.leftTiles, leftDone := s.leftDone, leftItr := s.leftItr) == s
  {
    if !s.leftDone && s.leftRemaining != [] {
      assert s.leftRemaining == [s.leftRemaining[0]] + s.leftRemaining[1..];
    }
  }

  lemma RightStepInput(answers: nat -> bool, s: JoinState, advance: bool)
    ensures var t := RightStep(answers, s, advance).0;
      && s.rightTiles <= t.rightTiles && SameInput(t, s)
      && (s.rightDone ==> t.rightDone)
      && t.(rightRemaining := s.rightRemaining, rightTiles := s.rightTiles, rightDone := s.rightDone, calls := s.calls) == s
  {
    if (advance || s.rightTiles == []) && !(s.rightDone && s.rightTiles == []) && s.rightRemaining != [] {
      assert s.rightRemaining == [s.rightRemaining[0]] + s.rightRemaining[1..];
    }
  }

  /** When a call hands off: it does whenever the state it starts in is a hand-off state
      or the right child reports exhaustion, and once both children are done it changes
      nothing but the count of outer-join completions. */
  lemma PickStepHandsOff(answers: nat -> bool, s: JoinState)
    requires Scheduled(s)
    ensures !s.rightDone && PickStep(answers, s).0.rightDone ==> PickStep(answers, s).1
    ensures HandOffState(s) ==> PickStep(answers, s).1
    ensures s.leftDone && s.rightDone ==> PickStep(answers, s).0 == s.(calls := s.calls + 1)
  {
    if !(s.leftDone && s.rightDone) {
      LeftStepAdvances(s);
      RightStepReady(answers, LeftStep(s).0, LeftStep(s).1);
    }
  }

  /** Lines 159-214: joining the next pair of the schedule keeps the buffers consistent
      with the schedule, and the trackers in step with the joined pairs. */
  lemma JoinStepRecords(pred: Option<JoinPredicate>, s: JoinState)
    requires Ready(s)
    ensures var (t, nonEmpty) := JoinStep(pred, s);
      var jp := (s.leftItr, |s.rightTiles| - 1);
      && Scheduled(t)
      && t.joined == s.joined + [jp]
      && (nonEmpty <==> PairRowsOf(pred, s.leftTiles, s.rightTiles, jp) != [])
      && (nonEmpty ==> t.output == Some(OutputTile(jp.0, jp.1, PairRowsOf(pred, s.leftTiles, s.rightTiles, jp))))
      && (!nonEmpty ==> t.output == s.output)
      && (TrackersConsistent(pred, s) ==> TrackersConsistent(pred, t))
      && t.(leftMatched := s.leftMatched, rightMatched := s.rightMatched, joined := s.joined, output := s.output) == s
  {
    var jp := (s.leftItr, |s.rightTiles| - 1);
    FollowsSnoc(|s.leftTiles|, s.joined);
    if TrackersConsistent(pred, s) {
      var pairs := PairRowsOf(pred, s.leftTiles, s.rightTiles, jp);
      TracksRecord(pred, s.leftTiles, s.rightTiles, s.joined, s.leftMatched, s.rightMatched, jp,
                   s.leftMatched + LeftMarks(jp.0, pairs), s.rightMatched + RightMarks(jp.1, pairs));
    }
  }

  /** Which pair a pass joins, what it says about its rows and that it leaves the buffers
      and the cursor alone. */
  lemma JoinStepJoins(pred: Option<JoinPredicate>, s: JoinState)
    requires Ready(s)
    ensures var (t, nonEmpty) := JoinStep(pred, s);
      var jp := (s.leftItr, |s.rightTiles| - 1);
      && t.calls == s.calls && t.leftTiles == s.leftTiles && t.rightTiles == s.rightTiles
      && t.leftItr == s.leftItr && t.rightDone == s.rightDone
      && t.joined == s.joined + [jp]
      && (nonEmpty <==> PairRowsOf(pred, s.leftTiles, s.rightTiles, jp) != [])
      && (nonEmpty ==> OutputIsLastJoinedPair(pred, t))
  {
    var jp := (s.leftItr, |s.rightTiles| - 1);
    assert JoinStep(pred, s).0.joined[|s.joined|] == jp;
  }

  /** One pass of the loop keeps the buffers consistent with the schedule and either ends
      the call or makes progress. */
  lemma LoopStepProgress(pred: Option<JoinPredicate>, answers: nat -> bool, s: JoinState)
    requires Scheduled(s)
    ensures Scheduled(LoopStep(pred, answers, s).0)
    ensures !LoopStep(pred, answers, s).1 ==> Progress(LoopStep(pred, answers, s).0, s)
  {
    PickStepReady(answers, s);
    if !PickStep(answers, s).1 {
      JoinStepRecords(pred, PickStep(answers, s).0);
    }
  }

  /** One pass of the loop keeps the trackers in step with the joined pairs and the
      buffers in step with the children. */
  lemma LoopStepTracks(pred: Option<JoinPredicate>, answers: nat -> bool, s: JoinState)
    requires Consistent(pred, s)
    ensures Consistent(pred, LoopStep(pred, answers, s).0)
    ensures var t := LoopStep(pred, answers, s).0;
      s.leftTiles <= t.leftTiles && s.rightTiles <= t.rightTiles && SameInput(t, s)
  {
    LoopStepProgress(pred, answers, s);
    PickStepReady(answers, s);
    PickStepInput(answers, s);
    var p := PickStep(answers, s).0;
    TracksExtend(pred, s.leftTiles, s.rightTiles, p.leftTiles, p.rightTiles, s.joined, s.leftMatched, s.rightMatched);
    if !PickStep(answers, s).1 {
      JoinStepRecords(pred, p);
    }
  }

  /** The output tile holds the rows of the last pair joined, at the cursor against the
      last right tile, and there are some. */
  predicate OutputIsLastJoinedPair(pred: Option<JoinPredicate>, t: JoinState)
  {
    && t.rightTiles != [] && t.leftItr < |t.leftTiles|
    && t.joined != [] && t.joined[|t.joined| - 1] == (t.leftItr, |t.rightTiles| - 1)
    && PairRowsOf(pred, t.leftTiles, t.rightTiles, (t.leftItr, |t.rightTiles| - 1)) != []
    && t.output == Some(OutputTile(t.leftItr, |t.rightTiles| - 1,
                                   PairRowsOf(pred, t.leftTiles, t.rightTiles, (t.leftItr, |t.rightTiles| - 1))))
  }

  /** Which pair one pass of the loop joins: none when it hands off, otherwise the next
      pair of the schedule, the result saying whether that pair produced rows. */
  lemma LoopStepJoins(pred: Option<JoinPredicate>, answers: nat -> bool, s: JoinState)
    requires Scheduled(s)
    ensures var (t, handedOff, result) := LoopStep(pred, answers, s);
      && (handedOff ==> t.calls == s.calls + 1 && t.joined == s.joined)
      && (!handedOff ==>
            && t.calls == s.calls && t.rightTiles != [] && t.leftItr < |t.leftTiles|
            && t.joined == s.joined + [(t.leftItr, |t.rightTiles| - 1)]
            && (result <==> PairRowsOf(pred, t.leftTiles, t.rightTiles, (t.leftItr, |t.rightTiles| - 1)) != []))
  {
    PickStepReady(answers, s);
    PickStepKeeps(answers, s);
    if !PickStep(answers, s).1 {
      JoinStepJoins(pred, PickStep(answers, s).0);
    }
  }

  /** A pass of the loop that hands off returns the answer of outer-join completion and
      leaves the output tile alone. */
  lemma LoopStepHandOff(pred: Option<JoinPredicate>, answers: nat -> bool, s: JoinState)
    requires Scheduled(s)
    ensures var (t, handedOff, result) := LoopStep(pred, answers, s);
      handedOff ==> HandOffState(t) && result == answers(s.calls) && t.output == s.output
  {
    PickStepReady(answers, s);
    PickStepInput(answers, s);
  }

  /** A pass of the loop that returns true leaves the rows of the pair it joined in the
      output tile. */
  lemma LoopStepEmits(pred: Option<JoinPredicate>, answers: nat -> bool, s: JoinState)
    requires Scheduled(s)
    ensures var (t, handedOff, result) := LoopStep(pred, answers, s);
      !handedOff && result ==> !t.rightDone && OutputIsLastJoinedPair(pred, t)
  {
    PickStepReady(answers, s);
    if !PickStep(answers, s).1 {
      JoinStepJoins(pred, PickStep(answers, s).0);
    }
  }

  /** When one pass of the loop hands off. */
  lemma LoopStepHandsOff(pred: Option<JoinPredicate>, answers: nat -> bool, s: JoinState)
    requires Scheduled(s)
    ensures s.rightDone ==> LoopStep(pred, answers, s).0.rightDone
    ensures !s.rightDone && LoopStep(pred, answers, s).0.rightDone ==> LoopStep(pred, answers, s).1
    ensures HandOffState(s) ==> LoopStep(pred, answers, s).1
    ensures s.leftDone && s.rightDone ==> LoopStep(pred, answers, s) == (s.(calls := s.calls + 1), true, answers(s.calls))
  {
    PickStepHandsOff(answers, s);
    PickStepInput(answers, s);
    if !PickStep(answers, s).1 {
      PickStepReady(answers, s);
    }
  }

  /** One pass of the loop only buffers what the children yield and joins more pairs. */
  lemma LoopStepGrows(pred: Option<JoinPredicate>, answers: nat -> bool, s: JoinState)
    requires Scheduled(s)
    ensures var t := LoopStep(pred, answers, s).0;
      s.leftTiles <= t.leftTiles && s.rightTiles <= t.rightTiles && s.joined <= t.joined && SameInput(t, s)
  {
    PickStepInput(answers, s);
    if !PickStep(answers, s).1 {
      PickStepReady(answers, s);
      JoinStepRecords(pred, PickStep(answers, s).0);
    }
  }

  /** The pairs joined so far name buffered tiles. */
  lemma ScheduledInRange(s: JoinState)
    requires Scheduled(s)
    ensures InRange(s.leftTiles, s.rightTiles, s.joined)
  {
    if s.joined != [] {
      var n, last := |s.leftTiles|, |s.joined| - 1;
      forall k | 0 <= k < |s.joined| ensures s.joined[k].0 < n && s.joined[k].1 < |s.rightTiles| {
        PosInverse(n, k);
        if k < last {
          PosOrdered(n, k, last);
        }
      }
    }
  }

  //===------------------------------------------------------------------===//
  // What a call achieves
  //===------------------------------------------------------------------===//

  /** A call only buffers what the children yield and joins more pairs. */
  lemma {:induction false} RunGrows(pred: Option<JoinPredicate>, answers: nat -> bool, s: JoinState)
    requires Scheduled(s)
    ensures var t := Run(pred, answers, s).0;
      && Scheduled(t)
      && s.leftTiles <= t.leftTiles && s.rightTiles <= t.rightTiles && s.joined <= t.joined && SameInput(t, s)
    decreases LeftWork(s), RightWork(s), CursorWork(s)
  {
    var (t, handedOff, result) := LoopStep(pred, answers, s);
    LoopStepProgress(pred, answers, s);
    LoopStepGrows(pred, answers, s);
    if !(handedOff || result) {
      RunGrows(pred, answers, t);
    }
  }

  /** A call keeps the executor's invariant: the buffers consistent with the schedule and
      the match trackers in step with the pairs joined. */
  lemma {:induction false} RunKeeps(pred: Option<JoinPredicate>, answers: nat -> bool, s: JoinState)
    requires Consistent(pred, s)
    ensures Consistent(pred, Run(pred, answers, s).0)
    decreases LeftWork(s), RightWork(s), CursorWork(s)
  {
    var (t, handedOff, result) := LoopStep(pred, answers, s);
    LoopStepProgress(pred, answers, s);
    LoopStepTracks(pred, answers, s);
    if !(handedOff || result) {
      RunKeeps(pred, answers, t);
    }
  }

  /** What a call returns (lines 84-218): either it hands off, returning the answer of
      outer-join completion and leaving the output tile alone, or it returns true with the
      output tile holding the rows of the last pair it joined. */
  lemma {:induction false} RunResult(pred: Option<JoinPredicate>, answers: nat -> bool, s: JoinState)
    requires Scheduled(s)
    ensures var (t, result) := Run(pred, answers, s);
      || (t.calls == s.calls + 1 && HandOffState(t) && result == answers(s.calls) && t.output == s.output)
      || (t.calls == s.calls && result && !t.rightDone && OutputIsLastJoinedPair(pred, t))
    decreases LeftWork(s), RightWork(s), CursorWork(s)
  {
    var (t, handedOff, result) := LoopStep(pred, answers, s);
    LoopStepProgress(pred, answers, s);
    LoopStepJoins(pred, answers, s);
    LoopStepHandOff(pred, answers, s);
    LoopStepEmits(pred, answers, s);
    if !(handedOff || result) {
      RunResult(pred, answers, t);
    }
  }

  /** A pair that produced no rows, joined just before the pairs a later state joined,
      extends a run of such pairs back by one. */
  lemma SilentPairExtends(pred: Option<JoinPredicate>, before: seq<TilePair>, t: JoinState, u: JoinState)
    requires t.rightTiles != [] && t.leftItr < |t.leftTiles|
    requires t.joined == before + [(t.leftItr, |t.rightTiles| - 1)]
    requires PairRowsOf(pred, t.leftTiles, t.rightTiles, (t.leftItr, |t.rightTiles| - 1)) == []
    requires t.leftTiles <= u.leftTiles && t.rightTiles <= u.rightTiles && t.joined <= u.joined
    ensures NoPairsFrom(pred, u.leftTiles, u.rightTiles, u.joined, |t.joined|) ==>
              NoPairsFrom(pred, u.leftTiles, u.rightTiles, u.joined, |before|)
    ensures u.joined != [] && NoPairsFrom(pred, u.leftTiles, u.rightTiles, u.joined[..|u.joined| - 1], |t.joined|) ==>
              NoPairsFrom(pred, u.leftTiles, u.rightTiles, u.joined[..|u.joined| - 1], |before|)
  {
    NoPairsPrepend(pred, t.leftTiles, t.rightTiles, u.leftTiles, u.rightTiles, before,
                   (t.leftItr, |t.rightTiles| - 1), u.joined);
  }

  /** A call that hands off joined only pairs that produce no rows. */
  lemma {:induction false} RunSilentBeforeHandOff(pred: Option<JoinPredicate>, answers: nat -> bool, s: JoinState)
    requires Scheduled(s)
    ensures var t := Run(pred, answers, s).0;
      t.calls == s.calls + 1 ==> NoPairsFrom(pred, t.leftTiles, t.rightTiles, t.joined, |s.joined|)
    decreases LeftWork(s), RightWork(s), CursorWork(s)
  {
    var (t, handedOff, result) := LoopStep(pred, answers, s);
    LoopStepProgress(pred, answers, s);
    LoopStepJoins(pred, answers, s);
    if handedOff {
      ScheduledInRange(t);
      NoPairsAtEnd(pred, t.leftTiles, t.rightTiles, t.joined, t.joined, |s.joined|);
    } else if !result {
      RunSilentBeforeHandOff(pred, answers, t);
      RunGrows(pred, answers, t);
      assert Run(pred, answers, s) == Run(pred, answers, t);
      SilentPairExtends(pred, s.joined, t, Run(pred, answers, t).0);
    }
  }

  /** Every pair a call joins before the one whose rows it returns produces no rows: the
      call joins pairs until the first that produces some. */
  lemma {:induction false} RunSilentBeforeOutput(pred: Option<JoinPredicate>, answers: nat -> bool, s: JoinState)
    requires Scheduled(s)
    ensures var t := Run(pred, answers, s).0;
      t.calls == s.calls && t.joined != [] ==>
        NoPairsFrom(pred, t.leftTiles, t.rightTiles, t.joined[..|t.joined| - 1], |s.joined|)
    decreases LeftWork(s), RightWork(s), CursorWork(s), 1
  {
    var (t, handedOff, result) := LoopStep(pred, answers, s);
    LoopStepProgress(pred, answers, s);
    LoopStepJoins(pred, answers, s);
    if !handedOff && result {
      ScheduledInRange(t);
      NoPairsAtEnd(pred, t.leftTiles, t.rightTiles, t.joined[..|t.joined| - 1], t.joined, |s.joined|);
    } else if !handedOff {
      SilentBeforeOutputLater(pred, answers, s, t);
      assert Run(pred, answers, s) == Run(pred, answers, t);
    }
  }

  /** After a pass from `s` to `t` that joins a pair producing no rows and goes on. */
  lemma {:induction false} SilentBeforeOutputLater(pred: Option<JoinPredicate>, answers: nat -> bool, s: JoinState, t: JoinState)
    requires Scheduled(t) && Progress(t, s) && t.calls == s.calls
    requires t.rightTiles != [] && t.leftItr < |t.leftTiles|
    requires t.joined == s.joined + [(t.leftItr, |t.rightTiles| - 1)]
    requires PairRowsOf(pred, t.leftTiles, t.rightTiles, (t.leftItr, |t.rightTiles| - 1)) == []
    ensures var u := Run(pred, answers, t).0;
      u.calls == s.calls && u.joined != [] ==>
        NoPairsFrom(pred, u.leftTiles, u.rightTiles, u.joined[..|u.joined| - 1], |s.joined|)
    decreases LeftWork(s), RightWork(s), CursorWork(s), 0
  {
    RunSilentBeforeOutput(pred, answers, t);
    RunGrows(pred, answers, t);
    SilentPairExtends(pred, s.joined, t, Run(pred, answers, t).0);
  }

  /** Which calls hand off: every call that starts in a hand-off state, and every call in
      which the right child reports exhaustion; a call after both children are done changes
      nothing but the count of outer-join completions. */
  lemma {:induction false} RunHandsOff(pred: Option<JoinPredicate>, answers: nat -> bool, s: JoinState)
    requires Scheduled(s)
    ensures HandOffState(s) ==> Run(pred, answers, s).0.calls == s.calls + 1
    ensures !s.rightDone && Run(pred, answers, s).0.rightDone ==> Run(pred, answers, s).0.calls == s.calls + 1
    ensures s.leftDone && s.rightDone ==> Run(pred, answers, s) == (s.(calls := s.calls + 1), answers(s.calls))
    decreases LeftWork(s), RightWork(s), CursorWork(s)
  {
    var (t, handedOff, result) := LoopStep(pred, answers, s);
    LoopStepProgress(pred, answers, s);
    LoopStepJoins(pred, answers, s);
    LoopStepHandsOff(pred, answers, s);
    if !(handedOff || result) {
      RunHandsOff(pred, answers, t);
    }
  }

  /** Once both children are done the whole schedule has been joined and the match
      trackers hold exactly the rows that matched some row of the other side. */
  lemma CompletedRun(pred: Option<JoinPredicate>, s: JoinState)
    requires Consistent(pred, s) && s.leftDone && s.rightDone
    ensures s.leftRemaining == [] && s.rightRemaining == []
    ensures s.joined == Sched(|s.leftTiles|, |s.rightTiles|)
    ensures forall mr :: mr in s.leftMatched <==>
              mr.0 < |s.leftTiles| && mr.1 in s.leftTiles[mr.0]
              && exists j, r :: 0 <= j < |s.rightTiles| && r in s.rightTiles[j] && Passes(pred, mr.0, mr.1, j, r)
    ensures forall mr :: mr in s.rightMatched <==>
              mr.0 < |s.rightTiles| && mr.1 in s.rightTiles[mr.0]
              && exists i, l :: 0 <= i < |s.leftTiles| && l in s.leftTiles[i] && Passes(pred, i, l, mr.0, mr.1)
  {
    if s.leftTiles != [] && s.rightTiles != [] {
      FollowsComplete(|s.leftTiles|, |s.rightTiles|, s.joined);
    }
    forall mr ensures mr in s.leftMatched <==>
              mr.0 < |s.leftTiles| && mr.1 in s.leftTiles[mr.0]
              && exists j, r :: 0 <= j < |s.rightTiles| && r in s.rightTiles[j] && Passes(pred, mr.0, mr.1, j, r)
    {
      CompleteLeftMarks(pred, s.leftTiles, s.rightTiles, mr);
    }
    forall mr ensures mr in s.rightMatched <==>
              mr.0 < |s.rightTiles| && mr.1 in s.rightTiles[mr.0]
              && exists i, l :: 0 <= i < |s.leftTiles| && l in s.leftTiles[i] && Passes(pred, i, l, mr.0, mr.1)
    {
      CompleteRightMarks(pred, s.leftTiles, s.rightTiles, mr);
    }
  }
}
