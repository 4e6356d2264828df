/** The correlated, index-probe variant of the nested-loop join as the executor object
    (NestedLoopJoinExecutor::DExecute, nested_loop_join_executor.cpp lines 221-401).

    Each method changes the executor's fields and its children exactly as the matching
    function of CorrelatedJoinSpec says; what the calls achieve, and where they fail, is
    proved there about those functions.  A call ends with an Outcome: the bool the code
    returns, or the Fault at which the code as written fails.
 */
module CorrelatedJoin {
  import opened JoinModel
  import opened PairwiseMatcher
  import opened MatchTracker
  import opened Children
  import opened CorrelatedJoinSpec

  class CorrelatedNestedLoopJoin {
    const left: TileQueue
    const right: IndexScanChild
    const outer: OuterJoinEmitter
    /** predicate_; None is the null predicate. */
    const joinPredicate: Option<JoinPredicate>
    /** The value of a column in a row of the buffered left tile at an index. */
    const columnValue: (nat, RowId, ColumnId) -> Value

    var leftDone: bool
    var rightDone: bool
    var leftItr: nat
    var rightItr: nat
    var leftTiles: seq<Tile>
    var rightTiles: seq<Tile>
    var leftMatched: set<MatchedRow>
    var rightMatched: set<MatchedRow>
    var output: Option<OutputTile>
    /** The tile pairs joined so far, in order. */
    ghost var joined: seq<TilePair>

    /** The executor's state together with what its children hold. */
    ghost function Model(): ProbeJoinState
      reads this, left, right, outer
    {
      ProbeJoinState(left.remaining, right.State(), outer.calls, leftDone, rightDone, leftItr, rightItr,
                     leftTiles, rightTiles, leftMatched, rightMatched, output, joined)
    }

    /** What a call reads but does not change. */
    function Env(): ProbeEnv
    {
      ProbeEnv(joinPredicate, outer.answers, right.lookup, right.accepts, columnValue)
    }

    ghost predicate Valid()
      reads this, left, right, outer
    {
      EnvOk(Env()) && ProbeConsistent(Model()) && ProbeTracks(joinPredicate, Model())
    }

    /** The executor after DInit, with an index scan that has yielded nothing yet. */
    constructor (left: TileQueue, right: IndexScanChild, outer: OuterJoinEmitter,
                 joinPredicate: Option<JoinPredicate>, columnValue: (nat, RowId, ColumnId) -> Value)
      requires joinPredicate.Some? ==> joinPredicate.value.left.ColumnRef?
      requires ScanValid(right.State()) && right.yielded == []
      ensures Valid()
      ensures this.left == left && this.right == right && this.outer == outer
      ensures this.joinPredicate == joinPredicate && this.columnValue == columnValue
      ensures Model() == ProbeJoinState(left.remaining, right.State(), outer.calls, false, false, 0, 0,
                                        [], [], {}, {}, None, [])
    {
      this.left, this.right, this.outer := left, right, outer;
      this.joinPredicate, this.columnValue := joinPredicate, columnValue;
      leftDone, rightDone, leftItr, rightItr := false, false, 0, 0;
      leftTiles, rightTiles, leftMatched, rightMatched := [], [], {}, {};
      output, joined := None, [];
    }

    /** Lines 241-269: advance the left cursor over the buffer once the left child is done,
        otherwise pull the left child; report whether the right child must be advanced. */
    method PickLeftTile() returns (advance: bool, out: Outcome)
      requires !(leftDone && rightDone)
      modifies this`leftDone, this`leftItr, this`leftTiles, left
      ensures (Model(), advance, out) == PickLeft(old(Model()))
    {
      out := Continue;
      if leftDone {
        // line 245
        if |rightTiles| == 0 {
          return false, Failed(RightBufferEmpty);
        }
        leftItr := leftItr + 1;
        advance := false;
        if leftItr >= |leftTiles| {
          advance := true;
          leftItr := 0;
        }
      } else {
        var produced, tile := left.Execute();
        if !produced {
          leftDone := true;
          leftItr := 0;
          advance := true;
        } else {
          leftTiles := leftTiles + [tile];
          leftItr := |leftTiles| - 1;
          advance := false;
        }
      }
    }

    /** One pass of the loop at lines 310-330: buffer the tile the index scan yields, or
        reset it (left child live) or mark the right side done once it is exhausted.
        `more` says whether the loop goes on. */
    method DrainStep() returns (more: bool, out: Outcome)
      requires ScanValid(right.State())
      modifies this`rightDone, this`rightTiles, right, outer
      ensures ScanValid(right.State())
      ensures more ==> out == Continue && DrainProbe(Env(), Model()) == DrainProbe(Env(), old(Model()))
                       && ScanPending(right.lookup, right.State()) < old(ScanPending(right.lookup, right.State()))
      ensures !more ==> (Model(), out) == DrainProbe(Env(), old(Model()))
    {
      ScanExecuteYields(right.lookup, right.State());
      var produced, tile := right.Execute();
      if produced {
        rightTiles := rightTiles + [tile];
        if leftDone && |leftTiles| == 0 {
          var answer := outer.BuildOuterJoinOutput();
          return false, Returned(answer);
        }
        return true, Continue;
      }
      if !leftDone {
        right.ResetState();
      } else {
        rightDone := true;
      }
      return false, Continue;
    }

    /** Lines 310-330: buffer what the index scan yields until it is exhausted, then reset
        it while the left child is live, or mark the right side done. */
    method DrainRight() returns (out: Outcome)
      requires ScanValid(right.State())
      modifies this`rightDone, this`rightTiles, right, outer
      ensures (Model(), out) == DrainProbe(Env(), old(Model()))
    {
      var more := true;
      out := Continue;
      while more
        invariant ScanValid(right.State())
        invariant more ==> DrainProbe(Env(), Model()) == DrainProbe(Env(), old(Model()))
        invariant !more ==> (Model(), out) == DrainProbe(Env(), old(Model()))
        decreases more, ScanPending(right.lookup, right.State())
      {
        more, out := DrainStep();
      }
    }

    /** Lines 273-331: push the key of each row of the left tile at the cursor into the
        index scan and drain it. */
    method ProbeWithLeftTile() returns (out: Outcome)
      requires EnvOk(Env()) && ScanValid(right.State()) && leftItr < |leftTiles|
      modifies this`rightDone, this`rightTiles, right, outer
      ensures (Model(), out) == ProbeRows(Env(), old(Model()), old(leftTiles[leftItr]))
    {
      var rows := leftTiles[leftItr];
      var i := 0;
      while i < |rows|
        invariant 0 <= i <= |rows| && ScanValid(right.State())
        invariant leftItr == old(leftItr) && leftTiles == old(leftTiles)
        invariant ProbeRows(Env(), Model(), rows[i..]) == ProbeRows(Env(), old(Model()), rows)
      {
        assert rows[i..][0] == rows[i] && rows[i..][1..] == rows[i + 1..];
        if joinPredicate.None? {
          return Failed(NullPredicate);
        }
        var column := joinPredicate.value.left.column;
        var ok := right.ReplaceKeyValue(column, columnValue(leftItr, rows[i], column));
        if !ok {
          return Returned(false);
        }
        if rightDone && |rightTiles| == 0 {
          var more := outer.BuildOuterJoinOutput();
          return Returned(more);
        }
        // line 307
        if leftItr != 0 {
          return Failed(CursorNotZeroProbe);
        }
        DrainKeepsProbe(Env(), Model());
        out := DrainRight();
        if !out.Continue? {
          return;
        }
        i := i + 1;
      }
      out := Continue;
    }

    /** Lines 333-342: hand off when the right side is done with nothing buffered, assert
        the cursor is 0 when the right child was to be advanced, and require a right tile. */
    method CheckRightTile(advance: bool) returns (out: Outcome)
      modifies outer
      ensures (Model(), out) == CheckRight(Env(), old(Model()), advance)
    {
      if advance || |rightTiles| == 0 {
        if rightDone && |rightTiles| == 0 {
          var more := outer.BuildOuterJoinOutput();
          return Returned(more);
        }
        // line 339
        if leftItr != 0 {
          return Failed(CursorNotZeroAdvance);
        }
      }
      // line 342
      if |rightTiles| == 0 {
        return Failed(NoRightTile);
      }
      out := Continue;
    }

    /** Lines 349-397: join the left tile at the cursor with the last right tile, record the
        matches and set the output tile when the position list is not empty. */
    method BuildJoinTile() returns (nonEmpty: bool)
      requires leftItr < |leftTiles| && rightTiles != []
      modifies this`leftMatched, this`rightMatched, this`joined, this`output
      ensures (Model(), nonEmpty) == JoinBack(joinPredicate, old(Model()))
    {
      var ri := |rightTiles| - 1;
      var pairs, lm, rm := PairTiles(joinPredicate, leftItr, leftTiles[leftItr], ri, rightTiles[ri], leftMatched, rightMatched);
      nonEmpty := |pairs| > 0;
      leftMatched, rightMatched, joined, output :=
        lm, rm, joined + [(leftItr, ri)], if nonEmpty then Some(OutputTile(leftItr, ri, pairs)) else output;
    }

    /** Lines 333-399. */
    method CheckAndJoinTile(advance: bool) returns (out: Outcome)
      requires leftItr < |leftTiles|
      modifies this`leftMatched, this`rightMatched, this`joined, this`output, outer
      ensures (Model(), out) == CheckAndJoin(Env(), old(Model()), advance)
    {
      out := CheckRightTile(advance);
      if !out.Continue? {
        return;
      }
      var nonEmpty := BuildJoinTile();
      out := if nonEmpty then Returned(true) else Continue;
    }

    /** Lines 271-399, once the left tile is picked. */
    method ProbeAndJoinTile(advance: bool) returns (out: Outcome)
      requires EnvOk(Env()) && ScanValid(right.State())
      modifies this`rightDone, this`rightTiles, this`leftMatched, this`rightMatched, this`joined, this`output
      modifies right, outer
      ensures (Model(), out) == ProbeAndJoin(Env(), old(Model()), advance)
    {
      // line 271
      if leftItr >= |leftTiles| {
        return Failed(LeftIndexOutOfRange);
      }
      ProbeRowsFrame(Env(), Model(), leftTiles[leftItr]);
      out := ProbeWithLeftTile();
      if !out.Continue? {
        return;
      }
      out := CheckAndJoinTile(advance);
    }

    /** One pass of the loop of DExecute (lines 226-400). */
    method Step() returns (out: Outcome)
      requires EnvOk(Env()) && ScanValid(right.State())
      modifies this`leftDone, this`rightDone, this`leftItr, this`leftTiles, this`rightTiles
      modifies this`leftMatched, this`rightMatched, this`joined, this`output, left, right, outer
      ensures (Model(), out) == ProbeLoopStep(Env(), old(Model()))
    {
      if leftDone && rightDone {
        var more := outer.BuildOuterJoinOutput();
        return Returned(more);
      }
      var advance;
      advance, out := PickLeftTile();
      if !out.Continue? {
        return;
      }
      out := ProbeAndJoinTile(advance);
    }

    /** DExecute (lines 221-401): loop until a pass returns or fails. */
    method DExecute() returns (out: Outcome)
      requires Valid()
      modifies this`leftDone, this`rightDone, this`leftItr, this`leftTiles, this`rightTiles
      modifies this`leftMatched, this`rightMatched, this`joined, this`output, left, right, outer
      ensures Valid()
      ensures (Model(), out) == ProbeRun(Env(), old(Model()))
    {
      while true
        invariant Valid()
        invariant ProbeRun(Env(), Model()) == ProbeRun(Env(), old(Model()))
        decreases LeftWork(Model()), RightWork(Model()), CursorWork(Model())
      {
        ghost var s := Model();
        ProbeLoopStepProgress(Env(), s);
        ProbeLoopStepTracks(Env(), s);
        out := Step();
        if !out.Continue? {
          return;
        }
      }
    }
  }
}
